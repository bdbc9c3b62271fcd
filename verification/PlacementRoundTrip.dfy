/** What the writer places, the reader finds: section 7.7.3 of ISO/IEC 18004:2015. */
module PlacementRoundTrip {
  import opened BitMatrixParser
  import opened BitStrings
  import opened MatrixWriting
  import opened Placement

  /** The symbol as it is scanned: a module is black where the writer put a 1. */
  ghost predicate Scanned(g: map<Cell, int>, m: map<Cell, bool>) {
    m.Keys == g.Keys && forall c :: c in g ==> m[c] == (g[c] == 1)
  }

  /** The cells of a square symbol. */
  ghost predicate Square(keys: set<Cell>, dim: nat) {
    forall c: Cell :: c in keys <==> 0 <= c.x < dim && 0 <= c.y < dim
  }

  /** Reader and writer reserve the same cells. */
  ghost predicate SamePattern(g0: map<Cell, int>, pattern: map<Cell, bool>) {
    pattern.Keys == g0.Keys && forall c :: c in g0 ==> pattern[c] == !IsEmpty(g0[c])
  }

  lemma SameDataCells(g0: map<Cell, int>, pattern: map<Cell, bool>, cells: seq<Cell>)
    requires SamePattern(g0, pattern)
    ensures DataCells(cells, Marked(pattern)) == DataCells(cells, Reserved(g0))
  {
    SameReserved(cells, Marked(pattern), Reserved(g0));
  }

  /** One module that is scanned right: the mask put on by the writer is the one taken off by
      the reader. */
  lemma ModuleRoundTrip(bits: seq<bool>, k: nat, mask: nat, c: Cell, g: map<Cell, int>,
                        m: map<Cell, bool>, u: map<Cell, bool>, dim: nat)
    requires mask < 8 && m.Keys == g.Keys && Square(g.Keys, dim) && Unmasked(m, u, mask, dim, 0, dim)
    requires c in g && g[c] == Module(bits, k, mask, c) && m[c] == (g[c] == 1)
    ensures u[c] == if k < |bits| then bits[k] else false
  {
    MasksAgree(mask, c.x, c.y);
  }

  /** For every odd dimension, every reserved set and every mask, the reader's walk over the
      unmasked symbol finds, at every module scanned right, the bit the writer placed there,
      or a zero in the cells left over. */
  lemma PlacementRead(g0: map<Cell, int>, g: map<Cell, int>, bits: seq<bool>, mask: nat, dim: nat,
                      m: map<Cell, bool>, u: map<Cell, bool>, pattern: map<Cell, bool>)
    requires mask < 8 && Square(g0.Keys, dim) && SamePattern(g0, pattern)
    requires Filled(g0, g, DataCells(FullWalk(dim), Reserved(g0)), bits, mask)
    requires |bits| <= |DataCells(FullWalk(dim), Reserved(g0))|
    requires m.Keys == g.Keys && Unmasked(m, u, mask, dim, 0, dim)
    ensures var cells := DataCells(FullWalk(dim), Marked(pattern));
            && AllIn(cells, u) && AllIn(cells, m) && AllCells(cells, g)
            && |bits| <= |cells|
            && forall k :: 0 <= k < |cells| && m[cells[k]] == (g[cells[k]] == 1) ==>
                 ReadBits(u, cells)[k] == (bits + Repeat(false, |cells| - |bits|))[k]
  {
    hide FullWalk, DataCells, Module, Unmasked;
    var cells := DataCells(FullWalk(dim), Marked(pattern));
    SameDataCells(g0, pattern, FullWalk(dim));
    UnmaskedKeys(m, u, mask, dim);
    forall k | 0 <= k < |cells| && m[cells[k]] == (g[cells[k]] == 1)
      ensures u[cells[k]] == if k < |bits| then bits[k] else false
    {
      ModuleRoundTrip(bits, k, mask, cells[k], g, m, u, dim);
    }
  }

  ghost predicate AllCells(cells: seq<Cell>, g: map<Cell, int>) {
    forall k :: 0 <= k < |cells| ==> cells[k] in g
  }

  /** From an undamaged symbol the reader gets the bits of the writer, then zeros. */
  lemma PlacementRoundTrip(g0: map<Cell, int>, g: map<Cell, int>, bits: seq<bool>, mask: nat, dim: nat,
                           m: map<Cell, bool>, u: map<Cell, bool>, pattern: map<Cell, bool>)
    requires mask < 8 && Square(g0.Keys, dim) && SamePattern(g0, pattern)
    requires Filled(g0, g, DataCells(FullWalk(dim), Reserved(g0)), bits, mask)
    requires |bits| <= |DataCells(FullWalk(dim), Reserved(g0))|
    requires Scanned(g, m) && Unmasked(m, u, mask, dim, 0, dim)
    ensures var cells := DataCells(FullWalk(dim), Marked(pattern));
            && AllIn(cells, u)
            && |bits| <= |cells|
            && ReadBits(u, cells) == bits + Repeat(false, |cells| - |bits|)
  {
    hide FullWalk, DataCells, Module, Unmasked;
    PlacementRead(g0, g, bits, mask, dim, m, u, pattern);
  }

  lemma UnmaskedKeys(m: map<Cell, bool>, u: map<Cell, bool>, mask: nat, dim: nat)
    requires mask < 8 && Unmasked(m, u, mask, dim, 0, dim)
    ensures u.Keys == m.Keys
  {
  }
}
