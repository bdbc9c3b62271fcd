/** Reading the codewords out of a symbol: take off the mask, walk over the modules that are
    not reserved, and gather their bits into bytes. */
module BitMatrixParser {
  import opened BitMatrices
  import opened BitStrings
  import opened Options
  import opened Placement

  /** The cells up to column x of row y are inverted where the mask selects them. */
  ghost predicate Unmasked(g0: map<Cell, bool>, g: map<Cell, bool>, mask: nat, dimension: nat, x: nat, y: nat)
    requires mask < 8
  {
    && g.Keys == g0.Keys
    && forall c :: c in g && c.x >= 0 && c.y >= 0 ==>
                     g[c] == if (c.y < y || (c.y == y && c.x < x)) && c.x < dimension && IsMasked(mask, c.y, c.x)
                             then !g0[c] else g0[c]
  }

  lemma UnmaskedRow(g0: map<Cell, bool>, g: map<Cell, bool>, mask: nat, dimension: nat, y: nat)
    requires mask < 8 && Unmasked(g0, g, mask, dimension, dimension, y)
    ensures Unmasked(g0, g, mask, dimension, 0, y + 1)
  {
    hide IsMasked;
  }

  lemma UnmaskedCell(g0: map<Cell, bool>, g: map<Cell, bool>, mask: nat, dimension: nat, x: nat, y: nat)
    requires mask < 8 && Unmasked(g0, g, mask, dimension, x, y) && x < dimension && Cell(x, y) in g
    ensures IsMasked(mask, y, x) ==> Unmasked(g0, g[Cell(x, y) := !g[Cell(x, y)]], mask, dimension, x + 1, y)
    ensures !IsMasked(mask, y, x) ==> Unmasked(g0, g, mask, dimension, x + 1, y)
  {
    hide IsMasked;
  }

  /** Inverts every module the mask selects. */
  method UnmaskBitMatrix(mask: nat, matrix: BitMatrix, dimension: nat)
    requires mask < 8 && matrix.Valid() && dimension <= matrix.width && dimension <= matrix.height
    modifies matrix, matrix.bits
    ensures matrix.Valid() && Unmasked(old(matrix.grid), matrix.grid, mask, dimension, 0, dimension)
  {
    hide IsMasked, Unmasked;
    ghost var g0 := matrix.grid;
    UnmaskedStart(g0, mask, dimension);
    for i := 0 to dimension
      invariant matrix.Valid() && Unmasked(g0, matrix.grid, mask, dimension, 0, i)
    {
      for j := 0 to dimension
        invariant matrix.Valid() && Unmasked(g0, matrix.grid, mask, dimension, j, i)
      {
        UnmaskedCell(g0, matrix.grid, mask, dimension, j, i);
        if IsMasked(mask, i, j) {
          matrix.Flip(j, i);
        }
      }
      UnmaskedRow(g0, matrix.grid, mask, dimension, i);
    }
  }

  lemma UnmaskedStart(g: map<Cell, bool>, mask: nat, dimension: nat)
    requires mask < 8
    ensures Unmasked(g, g, mask, dimension, 0, 0)
  {
    hide IsMasked;
  }

  ghost function Marked(g: map<Cell, bool>): Cell -> bool {
    c => c !in g || g[c]
  }

  ghost predicate AllIn(cells: seq<Cell>, g: map<Cell, bool>) {
    forall k :: 0 <= k < |cells| ==> cells[k] in g
  }

  /** The modules at the given cells, in order. */
  ghost function ReadBits(g: map<Cell, bool>, cells: seq<Cell>): seq<bool>
    requires AllIn(cells, g)
  {
    seq(|cells|, k requires 0 <= k < |cells| => g[cells[k]])
  }

  // ---- Gathering bits into bytes

  /** After the given bits: u whole bytes, of which those with a place are stored, and c bits
      more, of value s. */
  ghost predicate Gathered(bits: seq<bool>, stored: seq<Byte>, u: nat, s: nat, c: nat) {
    && u == |bits| / 8 && c == |bits| - 8 * u && s == BitsNum(bits[8 * u..])
    && forall k :: 0 <= k < u && k < |stored| ==> stored[k] == Group(bits)[k]
  }

  lemma GatherBit(bits: seq<bool>, stored: seq<Byte>, u: nat, s: nat, c: nat, b: bool)
    requires Gathered(bits, stored, u, s, c)
    ensures c < 7 ==> Gathered(bits + [b], stored, u, 2 * s + (if b then 1 else 0), c + 1)
    ensures c >= 7 ==>
              var v := 2 * s + (if b then 1 else 0);
              0 <= v < 256 && Gathered(bits + [b], if u < |stored| then stored[u := v] else stored, u + 1, 0, 0)
  {
    hide ByteOf;
    var all := bits + [b];
    var tail := all[8 * u..];
    assert tail[..|tail| - 1] == bits[8 * u..];
    forall k | 0 <= k < u ensures Group(all)[k] == Group(bits)[k] {
      assert all[8 * k..8 * k + 8] == bits[8 * k..8 * k + 8];
    }
    if c >= 7 {
      var v := 2 * s + (if b then 1 else 0);
      assert all[8 * u..8 * u + 8] == tail;
      LastByte(tail, v);
      assert all[8 * (u + 1)..] == [];
    }
  }

  lemma LastByte(tail: seq<bool>, v: nat)
    requires |tail| == 8 && BitsNum(tail) == v
    ensures v < 256 && ByteOf(tail) == v
  {
    BitsNumBound(tail);
    assert Pow2(8) == 256;
  }

  // ---- The walk

  /** One cell further. */
  lemma ReadStep(g: map<Cell, bool>, reserved: Cell -> bool, visited: seq<Cell>, c: Cell)
    requires AllIn(visited, g) && c in g
    ensures AllIn(DataCells(visited, reserved), g) && AllIn(visited + [c], g) && AllIn(DataCells(visited + [c], reserved), g)
    ensures ReadBits(g, DataCells(visited + [c], reserved))
            == ReadBits(g, DataCells(visited, reserved)) + if reserved(c) then [] else [g[c]]
  {
    hide DataCells, ReadBits;
    DataCellsOf(visited, reserved);
    DataCellsStep(visited, c, reserved);
    var cells := DataCells(visited, reserved);
    forall k | 0 <= k < |cells| ensures cells[k] in g {
      assert cells[k] in visited;
    }
    if !reserved(c) {
      OneBitMore(g, cells, c);
    } else {
      assert cells + [] == cells && ReadBits(g, cells) + [] == ReadBits(g, cells);
    }
  }

  lemma OneBitMore(g: map<Cell, bool>, cells: seq<Cell>, c: Cell)
    requires AllIn(cells, g) && c in g
    ensures AllIn(cells + [c], g) && ReadBits(g, cells + [c]) == ReadBits(g, cells) + [g[c]]
  {
    assert (cells + [c])[..|cells|] == cells;
  }

  /** What was read after the cells visited so far. */
  ghost predicate Read(g: map<Cell, bool>, pattern: map<Cell, bool>, visited: seq<Cell>,
                       stored: seq<Byte>, u: nat, s: nat, c: nat)
  {
    var cells := DataCells(visited, Marked(pattern));
    AllIn(visited, g) && AllIn(cells, g) && Gathered(ReadBits(g, cells), stored, u, s, c)
  }

  lemma ReadFurther(g: map<Cell, bool>, pattern: map<Cell, bool>, visited: seq<Cell>,
                    stored: seq<Byte>, u: nat, s: nat, c: nat, d: Cell)
    requires Read(g, pattern, visited, stored, u, s, c) && d in g && d in pattern
    ensures pattern[d] ==> Read(g, pattern, visited + [d], stored, u, s, c)
    ensures !pattern[d] && c < 7 ==>
              Read(g, pattern, visited + [d], stored, u, 2 * s + (if g[d] then 1 else 0), c + 1)
    ensures !pattern[d] && c >= 7 ==>
              var v := 2 * s + (if g[d] then 1 else 0);
              0 <= v < 256 && Read(g, pattern, visited + [d], if u < |stored| then stored[u := v] else stored, u + 1, 0, 0)
  {
    hide Gathered, ReadBits, DataCells;
    var bits := ReadBits(g, DataCells(visited, Marked(pattern)));
    ReadStep(g, Marked(pattern), visited, d);
    assert bits + [] == bits;
    GatherBit(bits, stored, u, s, c, g[d]);
  }

  /** The two cells of one row of a strip. */
  method ReadPair(matrix: BitMatrix, pattern: BitMatrix, h: int, d: int, f: array<Byte>,
                  u0: nat, s0: nat, c0: nat, ghost visited: seq<Cell>) returns (u: nat, s: nat, c: nat)
    requires matrix.Valid() && pattern.Valid()
    requires matrix.Within(Cell(h, d)) && matrix.Within(Cell(h - 1, d))
    requires pattern.Within(Cell(h, d)) && pattern.Within(Cell(h - 1, d))
    requires Read(matrix.grid, pattern.grid, visited, f[..], u0, s0, c0) && c0 < 8
    modifies f
    ensures Read(matrix.grid, pattern.grid, visited + [Cell(h, d), Cell(h - 1, d)], f[..], u, s, c) && c < 8
  {
    hide Read;
    ghost var seen := visited;
    u, s, c := u0, s0, c0;
    for v := 0 to 2
      invariant c < 8 && Read(matrix.grid, pattern.grid, seen, f[..], u, s, c)
      invariant seen == visited + [Cell(h, d), Cell(h - 1, d)][..v]
    {
      var x := h - v;
      ReadFurther(matrix.grid, pattern.grid, seen, f[..], u, s, c, Cell(x, d));
      var taken := pattern.Get(x, d);
      if !taken {
        c := c + 1;
        var bit := matrix.Get(x, d);
        s := 2 * s + if bit then 1 else 0;
        if c == 8 {
          if u < f.Length {
            f[u] := s;
          }
          u, c, s := u + 1, 0, 0;
        }
      }
      seen := seen + [Cell(x, d)];
    }
    assert [Cell(h, d), Cell(h - 1, d)][..2] == [Cell(h, d), Cell(h - 1, d)];
  }

  /** The rows of one strip. */
  method ReadStrip(matrix: BitMatrix, pattern: BitMatrix, h: int, up: bool, f: array<Byte>,
                   u0: nat, s0: nat, c0: nat, ghost before: seq<Cell>)
    returns (u: nat, s: nat, c: nat, ghost visited: seq<Cell>)
    requires matrix.Valid() && pattern.Valid()
    requires matrix.width == matrix.height == pattern.width == pattern.height && 0 < h < matrix.width
    requires Read(matrix.grid, pattern.grid, before, f[..], u0, s0, c0) && c0 < 8
    modifies f
    ensures visited == before + Strip(matrix.width, h, up, 0)
    ensures Read(matrix.grid, pattern.grid, visited, f[..], u, s, c) && c < 8
  {
    hide Read, Strip;
    u, s, c, visited := u0, s0, c0, before;
    var dim: int := matrix.height;
    for l := 0 to dim
      invariant c < 8 && Read(matrix.grid, pattern.grid, visited, f[..], u, s, c)
      invariant visited + Strip(dim, h, up, l) == before + Strip(dim, h, up, 0)
    {
      var d := if up then dim - 1 - l else l;
      StripContinues(dim, h, up, l);
      ghost var pair, rest := [Cell(h, d), Cell(h - 1, d)], Strip(dim, h, up, l + 1);
      u, s, c := ReadPair(matrix, pattern, h, d, f, u, s, c, visited);
      assert visited + pair + rest == visited + (pair + rest);
      visited := visited + pair;
    }
    StripEnds(dim, h, up);
  }

  /** The codewords under the modules the pattern leaves free.  The program throws when their
      number is not the version's. */
  method ReadCodewords(matrix: BitMatrix, pattern: BitMatrix, total: nat) returns (r: Option<seq<Byte>>)
    requires matrix.Valid() && pattern.Valid()
    requires matrix.width == matrix.height == pattern.width == pattern.height
    ensures var cells := DataCells(FullWalk(matrix.width), Marked(pattern.grid));
            && AllIn(cells, matrix.grid)
            && var bytes := Group(ReadBits(matrix.grid, cells));
            r == if |bytes| == total then Some(bytes) else None
  {
    hide Read, Strip, Walk, FullWalk, ReadBits, Group;
    var f := new Byte[total](i => 0);
    ghost var visited: seq<Cell> := [];
    var dim: int := matrix.height;
    var u, s, c := 0, 0, 0;
    var up := true;
    var h: int := dim - 1;
    ReadNothing(matrix.grid, pattern.grid, f[..]);
    WalkStarts(dim);
    while h > 0
      invariant c < 8 && -1 <= h < dim
      invariant Read(matrix.grid, pattern.grid, visited, f[..], u, s, c)
      invariant FullWalk(dim) == visited + Walk(dim, h, up)
      decreases h
    {
      WalkContinues(dim, h, up);
      if h == 6 {
        h := h - 1;
      }
      ghost var before, after := visited, Walk(dim, h - 2, !up);
      u, s, c, visited := ReadStrip(matrix, pattern, h, up, f, u, s, c, before);
      assert before + Strip(dim, h, up, 0) + after == before + (Strip(dim, h, up, 0) + after);
      up := !up;
      h := h - 2;
    }
    WalkEnds(dim, h, up);
    assert visited == FullWalk(dim);
    ReadAll(matrix.grid, pattern.grid, visited, f[..], u, s, c);
    if u != total {
      return None;
    }
    r := Some(f[..]);
  }

  lemma ReadNothing(g: map<Cell, bool>, pattern: map<Cell, bool>, stored: seq<Byte>)
    ensures Read(g, pattern, [], stored, 0, 0, 0)
  {
  }

  lemma ReadAll(g: map<Cell, bool>, pattern: map<Cell, bool>, visited: seq<Cell>,
                stored: seq<Byte>, u: nat, s: nat, c: nat)
    requires Read(g, pattern, visited, stored, u, s, c)
    ensures var cells := DataCells(visited, Marked(pattern));
            && AllIn(cells, g)
            && |Group(ReadBits(g, cells))| == u
            && (u == |stored| ==> stored == Group(ReadBits(g, cells)))
  {
    hide ByteOf;
  }
}
