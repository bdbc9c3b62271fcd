/** The black and white modules of a scanned symbol, 32 to a word. */
module BitMatrices {
  import opened BitArrays
  import opened BitStrings
  import opened Layout
  import opened Placement
  import opened Words

  /** How many words a row of the given width takes. */
  function RowWords(width: nat): nat {
    WordsFor(width)
  }

  predicate Inside(c: Cell, width: nat, height: nat) {
    0 <= c.x < width && 0 <= c.y < height
  }

  predicate InRegion(c: Cell, left: int, top: int, w: int, h: int) {
    left <= c.x < left + w && top <= c.y < top + h
  }

  /** The number of the word that holds a module. */
  function Index(c: Cell, width: nat): nat
    requires c.x >= 0 && c.y >= 0
  {
    Rows(c.y, RowWords(width)) + c.x / 32
  }

  /** The words of row y. */
  function RowOf(words: seq<Word>, y: nat, width: nat): (r: seq<Word>)
    requires Rows(y + 1, RowWords(width)) <= |words|
    ensures |r| == RowWords(width)
  {
    words[Rows(y, RowWords(width))..Rows(y + 1, RowWords(width))]
  }

  /** The modules of row y, from the left. */
  ghost function RowBits(g: map<Cell, bool>, y: int, width: nat): (r: seq<bool>)
    requires forall x: int :: 0 <= x < width ==> Cell(x, y) in g
    ensures |r| == width
  {
    seq(width, x requires 0 <= x < width => g[Cell(x, y)])
  }

  lemma {:induction false} RowsGrow(j: nat, m: nat, n: nat)
    requires j <= m
    ensures Rows(j, n) <= Rows(m, n)
    decreases m
  {
    if j < m {
      RowsGrow(j, m - 1, n);
    }
  }

  lemma RowInside(y: nat, height: nat, n: nat)
    requires y < height
    ensures Rows(y + 1, n) <= Rows(height, n)
  {
    RowsGrow(y + 1, height, n);
  }

  /** Every row is packed into its words, with zeros behind the last module. */
  ghost predicate Represents(words: seq<Word>, g: map<Cell, bool>, width: nat, height: nat) {
    && |words| == Rows(height, RowWords(width))
    && (forall c: Cell :: c in g <==> Inside(c, width, height))
    && (forall y :: 0 <= y < height ==> RowHolds(words, g, width, y))
  }

  ghost predicate RowHolds(words: seq<Word>, g: map<Cell, bool>, width: nat, y: nat)
    requires forall x: int :: 0 <= x < width ==> Cell(x, y) in g
  {
    Rows(y + 1, RowWords(width)) <= |words| && Holds(RowOf(words, y, width), RowBits(g, y, width))
  }

  lemma IndexInside(words: seq<Word>, g: map<Cell, bool>, width: nat, height: nat, c: Cell)
    requires Represents(words, g, width, height) && Inside(c, width, height)
    ensures c in g && Index(c, width) < |words| && words[Index(c, width)][c.x % 32] == g[c]
  {
    hide Rows;
    assert RowHolds(words, g, width, c.y);
    RowStep(c.y, RowWords(width));
    var r := RowOf(words, c.y, width);
    WordInRow(c.x, width);
    assert r[c.x / 32] == words[Index(c, width)];
    PlaceOf(c.x);
    assert RowBits(g, c.y, width)[c.x] == g[c];
  }

  lemma WordInRow(x: nat, width: nat)
    requires x < width
    ensures x / 32 < RowWords(width)
  {
  }

  lemma RowStep(y: nat, n: nat)
    ensures Rows(y + 1, n) == Rows(y, n) + n
  {
  }

  /** Replacing one row's words and modules leaves the others alone. */
  lemma OneRow(words: seq<Word>, g: map<Cell, bool>, words': seq<Word>, g': map<Cell, bool>, width: nat, height: nat, y: nat)
    requires Represents(words, g, width, height) && y < height
    requires |words'| == |words| && g'.Keys == g.Keys
    requires forall c :: c in g && c.y != y ==> g'[c] == g[c]
    requires forall k :: 0 <= k < |words| && !(Rows(y, RowWords(width)) <= k < Rows(y + 1, RowWords(width))) ==> words'[k] == words[k]
    requires Rows(y + 1, RowWords(width)) <= |words'| && Holds(RowOf(words', y, width), RowBits(g', y, width))
    ensures Represents(words', g', width, height)
  {
    hide Holds, Rows;
    forall z | 0 <= z < height ensures RowHolds(words', g', width, z) {
      if z != y {
        assert RowHolds(words, g, width, z);
        RowsApart(z, y, RowWords(width));
        RowStep(z, RowWords(width));
        assert forall k :: Rows(z, RowWords(width)) <= k < Rows(z + 1, RowWords(width)) ==> words'[k] == words[k];
        assert RowOf(words', z, width) == RowOf(words, z, width);
        assert RowBits(g', z, width) == RowBits(g, z, width);
      }
    }
  }

  lemma RowsApart(z: nat, y: nat, n: nat)
    requires z != y
    ensures Rows(z + 1, n) <= Rows(y, n) || Rows(y + 1, n) <= Rows(z, n)
  {
    if z < y {
      RowsGrow(z + 1, y, n);
    } else {
      RowsGrow(y + 1, z, n);
    }
  }

  /** Changing one bit of one word changes one module. */
  lemma OneBit(words: seq<Word>, g: map<Cell, bool>, width: nat, height: nat, c: Cell, w: Word, b: bool)
    requires Represents(words, g, width, height) && Inside(c, width, height)
    requires Index(c, width) < |words|
    requires forall i :: 0 <= i < 32 ==> w[i] == if i == c.x % 32 then b else words[Index(c, width)][i]
    ensures Represents(words[Index(c, width) := w], g[c := b], width, height)
  {
    hide Rows, Holds;
    var n := RowWords(width);
    var words', g' := words[Index(c, width) := w], g[c := b];
    assert RowHolds(words, g, width, c.y);
    RowStep(c.y, n);
    var r, bits := RowOf(words, c.y, width), RowBits(g, c.y, width);
    WordInRow(c.x, width);
    assert r[c.x / 32] == words[Index(c, width)];
    HoldsUpdate(r, bits, c.x, w, b);
    assert RowOf(words', c.y, width) == r[c.x / 32 := w];
    assert RowBits(g', c.y, width) == bits[c.x := b];
    OneRow(words, g, words', g', width, height, c.y);
  }

  lemma {:induction false} AllZero(words: seq<Word>, g: map<Cell, bool>, width: nat, height: nat)
    requires |words| == Rows(height, RowWords(width)) && forall k :: 0 <= k < |words| ==> words[k] == Zero()
    requires (forall c: Cell :: c in g <==> Inside(c, width, height)) && forall c :: c in g ==> !g[c]
    ensures Represents(words, g, width, height)
  {
    hide Rows;
    forall y | 0 <= y < height ensures RowHolds(words, g, width, y) {
      RowInside(y, height, RowWords(width));
      RowStep(y, RowWords(width));
      ZerosHold(RowOf(words, y, width), RowBits(g, y, width));
    }
  }

  lemma ZerosHold(words: seq<Word>, b: seq<bool>)
    requires |b| <= 32 * |words|
    requires (forall k :: 0 <= k < |words| ==> words[k] == Zero()) && forall i :: 0 <= i < |b| ==> !b[i]
    ensures Holds(words, b)
  {
  }

  /** Words beyond those a row needs hold nothing. */
  lemma EnoughWords(words: seq<Word>, b: seq<bool>, n: nat)
    requires Holds(words, b) && n <= |words| && |b| <= 32 * n
    ensures Holds(words[..n], b)
  {
  }

  lemma ClearWords(words: seq<Word>, b: seq<bool>)
    requires Holds(words, b) && forall i :: 0 <= i < |b| ==> !b[i]
    ensures forall k :: 0 <= k < |words| ==> words[k] == Zero()
    ensures |b| <= 32 * |words|
  {
    forall k | 0 <= k < |words| ensures words[k] == Zero() {
      assert forall i :: 0 <= i < 32 ==> !words[k][i];
    }
  }

  lemma RowReady(words: seq<Word>, g: map<Cell, bool>, width: nat, height: nat, y: nat)
    requires Represents(words, g, width, height) && y < height
    ensures forall x: int :: 0 <= x < width ==> Cell(x, y) in g
    ensures Rows(y + 1, RowWords(width)) <= |words| && Holds(RowOf(words, y, width), RowBits(g, y, width))
  {
    assert RowHolds(words, g, width, y);
  }

  /** Zeros behind the words are zeros behind the bits. */
  lemma PaddedHolds(words: seq<Word>, b: seq<bool>, more: seq<Word>, size: nat)
    requires Holds(words, b) && |words| <= |more| && more[..|words|] == words && |b| <= size <= 32 * |more|
    requires forall k :: |words| <= k < |more| ==> more[k] == Zero()
    ensures Holds(more, b + Repeat(false, size - |b|))
  {
    var c := b + Repeat(false, size - |b|);
    forall k, i | 0 <= k < |more| && 0 <= i < 32 ensures more[k][i] == (32 * k + i < |c| && c[32 * k + i]) {
      if k < |words| {
        assert more[k] == words[k];
      }
    }
  }

  // ---- Half a turn

  function Opposite(c: Cell, width: int, height: int): Cell {
    Cell(width - 1 - c.x, height - 1 - c.y)
  }

  ghost predicate Turned(g: map<Cell, bool>, r: map<Cell, bool>, width: nat, height: nat) {
    && r.Keys == g.Keys
    && forall c :: c in g ==> Opposite(c, width, height) in g && r[c] == g[Opposite(c, width, height)]
  }

  /** Half a turn twice is nothing. */
  lemma TurnedTwice(g: map<Cell, bool>, r: map<Cell, bool>, q: map<Cell, bool>, width: nat, height: nat)
    requires Turned(g, r, width, height) && Turned(r, q, width, height)
    ensures q == g
  {
    forall c | c in g ensures q[c] == g[c] {
      assert Opposite(c, width, height) in g;
      assert Opposite(Opposite(c, width, height), width, height) == c;
    }
  }

  class BitMatrix {
    const width: nat
    const height: nat
    const rowSize: nat
    const bits: array<Word>

    /** The value of every module. */
    ghost var grid: map<Cell, bool>

    predicate Within(c: Cell) {
      Inside(c, width, height)
    }

    ghost predicate Valid()
      reads this, bits
    {
      rowSize == RowWords(width) && Represents(bits[..], grid, width, height)
    }

    constructor (width: nat, height: nat)
      requires width >= 1 && height >= 1
      ensures Valid() && this.width == width && this.height == height && fresh(bits)
      ensures forall c :: c in grid ==> !grid[c]
    {
      this.width := width;
      this.height := height;
      rowSize := RowWords(width);
      bits := new Word[Rows(height, RowWords(width))](i => Zero());
      grid := map x: int, y: int | 0 <= x < width && 0 <= y < height :: Cell(x, y) := false;
      new;
      AllZero(bits[..], grid, width, height);
    }

    method Get(x: int, y: int) returns (b: bool)
      requires Valid() && Within(Cell(x, y))
      ensures Cell(x, y) in grid && b == grid[Cell(x, y)]
    {
      IndexInside(bits[..], grid, width, height, Cell(x, y));
      b := ShiftRight(bits[Rows(y, rowSize) + x / 32], x % 32)[0];
    }

    method Set(x: int, y: int)
      requires Valid() && Within(Cell(x, y))
      modifies this, bits
      ensures Valid() && grid == old(grid)[Cell(x, y) := true]
    {
      ghost var c := Cell(x, y);
      IndexInside(bits[..], grid, width, height, c);
      var n := Rows(y, rowSize) + x / 32;
      var w := Or(bits[n], Unit(x % 32));
      OneBit(bits[..], grid, width, height, c, w, true);
      bits[n] := w;
      grid := grid[c := true];
    }

    method Flip(x: int, y: int)
      requires Valid() && Within(Cell(x, y))
      modifies this, bits
      ensures Valid() && grid == old(grid)[Cell(x, y) := !old(grid)[Cell(x, y)]]
    {
      ghost var c := Cell(x, y);
      IndexInside(bits[..], grid, width, height, c);
      var n := Rows(y, rowSize) + x / 32;
      var w := Xor(bits[n], Unit(x % 32));
      ghost var b := !grid[c];
      OneBit(bits[..], grid, width, height, c, w, b);
      bits[n] := w;
      grid := grid[c := b];
    }

    /** Sets a whole rectangle.  The program throws when it sticks out. */
    method SetRegion(left: int, top: int, w: int, h: int) returns (ok: bool)
      requires Valid()
      modifies this, bits
      ensures Valid()
      ensures ok <==> 0 <= left && 0 <= top && 1 <= w && 1 <= h && left + w <= width && top + h <= height
      ensures grid.Keys == old(grid).Keys
      ensures forall c :: c in grid ==>
                grid[c] == (old(grid)[c] || (ok && InRegion(c, left, top, w, h)))
    {
      if top < 0 || left < 0 || h < 1 || w < 1 {
        return false;
      }
      var right, bottom := left + w, top + h;
      if bottom > height || right > width {
        return false;
      }
      ghost var g0 := grid;
      for y := top to bottom
        invariant Valid() && grid.Keys == g0.Keys
        invariant forall c :: c in grid ==> grid[c] == (g0[c] || (left <= c.x < right && top <= c.y < y))
      {
        for x := left to right
          invariant Valid() && grid.Keys == g0.Keys
          invariant forall c :: c in grid ==>
                      grid[c] == (g0[c] || (left <= c.x < right && top <= c.y < y) || (c.y == y && left <= c.x < x))
        {
          Set(x, y);
        }
      }
      ok := true;
    }

    /** Copies the words of a row into the array given, or into a new one if that is missing or too
        short. */
    method GetRow(y: nat, given: BitArray?) returns (row: BitArray)
      requires Valid() && y < height
      requires given != null ==> given.Valid() && given.bits != bits
      modifies if given == null then {} else {given}, if given == null then {} else {given.bits}
      ensures row.Valid() && Valid() && row.bits != bits
      ensures forall x: int :: 0 <= x < width ==> Cell(x, y) in grid
      ensures row.size == if given == null || old(given.size) < width then width else old(given.size)
      ensures row.contents == RowBits(grid, y, width) + Repeat(false, row.size - width)
      ensures if given == null || old(given.size) < width then fresh(row) && fresh(row.bits)
              else row == given && row.bits == old(given.bits)
      ensures row.bits.Length >= rowSize
    {
      hide Rows, Holds, Represents;
      if given == null || given.size < width {
        row := new BitArray.Sized(width);
      } else {
        given.Clear();
        row := given;
      }
      CopyRow(y, row);
    }

    /** Copies the words of a row into an array of zeros. */
    method CopyRow(y: nat, row: BitArray)
      requires Valid() && y < height && row.Valid() && row.bits != bits && row.size >= width
      requires row.contents == Repeat(false, row.size)
      modifies row, row.bits
      ensures Valid() && row.Valid() && row.size == old(row.size) && row.bits == old(row.bits)
      ensures row.bits.Length >= rowSize
      ensures forall x: int :: 0 <= x < width ==> Cell(x, y) in grid
      ensures row.contents == RowBits(grid, y, width) + Repeat(false, row.size - width)
    {
      hide Rows, Holds, Represents;
      RowStep(y, rowSize);
      RowReady(bits[..], grid, width, height, y);
      ClearWords(row.bits[..], row.contents);
      var start := Rows(y, rowSize);
      ghost var words := bits[..];
      for k := 0 to rowSize
        invariant row.size == old(row.size) && row.bits == old(row.bits) && bits[..] == words
        invariant row.bits[..k] == words[start..start + k]
        invariant forall n :: k <= n < row.bits.Length ==> row.bits[n] == Zero()
      {
        row.bits[k] := bits[start + k];
      }
      row.contents := RowBits(grid, y, width) + Repeat(false, row.size - width);
      assert row.bits[..rowSize] == RowOf(words, y, width);
      PaddedHolds(RowOf(words, y, width), RowBits(grid, y, width), row.bits[..], row.size);
    }

    /** Copies the words of an array back into a row. */
    method SetRow(y: nat, row: BitArray)
      requires Valid() && y < height && row.Valid() && row.size == width && row.bits != bits && row.bits.Length >= rowSize
      modifies this, bits
      ensures Valid() && grid.Keys == old(grid).Keys
      ensures forall c :: c in grid ==> grid[c] == if c.y == y then row.contents[c.x] else old(grid)[c]
      ensures row.Valid() && row.contents == old(row.contents)
    {
      hide Rows, Holds;
      ghost var words, g, b := bits[..], grid, row.contents;
      var start := Rows(y, rowSize);
      RowStep(y, rowSize);
      assert RowHolds(words, g, width, y);
      for k := 0 to rowSize
        invariant grid == g && bits.Length == |words|
        invariant forall j :: 0 <= j < bits.Length ==> bits[j] == if start <= j < start + k then row.bits[j - start] else words[j]
      {
        bits[start + k] := row.bits[k];
      }
      grid := map c | c in g :: if c.y == y then b[c.x] else g[c];
      assert RowOf(bits[..], y, width) == row.bits[..rowSize];
      assert RowBits(grid, y, width) == b;
      EnoughWords(row.bits[..], b, rowSize);
      OneRow(words, g, bits[..], grid, width, height, y);
    }

    /** Two rows change places, each turned around, through the two arrays; the middle row is turned
        around in place. */
    method TurnRows(y: nat, top: BitArray, bottom: BitArray)
      requires Valid() && y < height && Apart(top, bottom)
      modifies this, bits, top, top.bits, bottom, bottom.bits
      ensures Valid() && grid.Keys == old(grid).Keys
      ensures Apart(top, bottom) && fresh(top.bits) && fresh(bottom.bits)
      ensures forall c :: c in grid ==> Opposite(c, width, height) in grid
      ensures forall c :: c in grid ==>
                grid[c] == if c.y == y || c.y == height - 1 - y then old(grid)[Opposite(c, width, height)] else old(grid)[c]
    {
      hide Represents, Rows, Holds, Reversed, RowBits;
      ghost var g := grid;
      GridInside(bits[..], grid, width, height);
      var n := GetRow(y, top);
      var i := GetRow(height - 1 - y, bottom);
      NoZeros();
      assert n.contents == RowBits(g, y, width) && i.contents == RowBits(g, height - 1 - y, width);
      n.Reverse();
      i.Reverse();
      SetRow(y, i);
      SetRow(height - 1 - y, n);
      forall c | c in grid
        ensures grid[c] == if c.y == y || c.y == height - 1 - y then g[Opposite(c, width, height)] else g[c]
      {
        if c.y == y || c.y == height - 1 - y {
          ReversedRow(g, height - 1 - c.y, width, c.x);
        }
      }
    }

    /** Two arrays for rows, sharing nothing with each other or the matrix. */
    ghost predicate Apart(top: BitArray, bottom: BitArray)
      reads this, top, top.bits, bottom, bottom.bits
    {
      && top.Valid() && bottom.Valid() && top.size == bottom.size == width
      && top != bottom && top.bits != bottom.bits && top.bits != bits && bottom.bits != bits
    }

    /** Turns the matrix by half a turn, from the outer rows to the middle. */
    method Rotate180()
      requires Valid()
      modifies this, bits
      ensures Valid() && Turned(old(grid), grid, width, height)
    {
      hide Represents;
      ghost var g := grid;
      GridInside(bits[..], grid, width, height);
      var top := new BitArray.Sized(width);
      var bottom := new BitArray.Sized(width);
      for y := 0 to (height + 1) / 2
        invariant Valid() && grid.Keys == g.Keys
        invariant fresh(top) && fresh(bottom) && fresh(top.bits) && fresh(bottom.bits) && Apart(top, bottom)
        invariant forall c :: c in grid ==>
                    grid[c] == if c.y < y || c.y >= height - y then g[Opposite(c, width, height)] else g[c]
      {
        TurnRows(y, top, bottom);
      }
    }
  }

  lemma NoZeros()
    ensures forall b: seq<bool> :: b + Repeat(false, 0) == b
  {
  }

  lemma ReversedRow(g: map<Cell, bool>, y: int, width: nat, x: nat)
    requires (forall x: int :: 0 <= x < width ==> Cell(x, y) in g) && x < width
    ensures Reversed(RowBits(g, y, width))[x] == g[Cell(width - 1 - x, y)]
  {
  }

  lemma GridInside(words: seq<Word>, g: map<Cell, bool>, width: nat, height: nat)
    requires Represents(words, g, width, height)
    ensures forall c: Cell :: c in g <==> Inside(c, width, height)
  {
  }
}
