/** Reading format and version back, with up to three wrong modules in a copy. */
module InformationReading {
  import opened BchCodes
  import opened BitMatrices
  import opened BitStrings
  import opened Options
  import opened Placement
  import opened SymbolBuilding
  import opened Versions
  import F = FormatInformation
  import V = VersionInformation

  // ---- Nearest words

  /** More than any distance. */
  const MAX_SAFE_INTEGER: nat := 9007199254740991

  /** Exclusive or of two numbers. */
  function NumXor(a: nat, b: nat): nat
    decreases a + b
  {
    if a == 0 && b == 0 then 0 else 2 * NumXor(a / 2, b / 2) + if a % 2 != b % 2 then 1 else 0
  }

  /** The nearest entry so far and its distance, after entry k of value c. */
  function Nearer(e: nat, t: nat, k: nat, c: nat, best: nat, least: nat): (nat, nat) {
    var h, h' := NumBitsDiffering(e, c), NumBitsDiffering(t, c);
    var (b, l) := if h < least then (k, h) else (best, least);
    if e != t && h' < l then (k, h') else (b, l)
  }

  /** The search through the list of format words from entry k on, for either of the two copies
      read: a word equal to one of them, or else the nearest one within distance three. */
  function FormatSearch(e: nat, t: nat, k: nat, best: nat, least: nat): Option<nat>
    requires k <= 32
    decreases 32 - k
  {
    if k == 32 then (if least <= 3 then Some(best) else None) else
    var c := F.FormatTable(k);
    if c == e || c == t then Some(k) else
    var (b, l) := Nearer(e, t, k, c, best, least);
    FormatSearch(e, t, k + 1, b, l)
  }

  /** The search, and once more with the mask taken off. */
  function FormatDecoded(e: nat, t: nat): Option<nat> {
    var r := FormatSearch(e, t, 0, 0, MAX_SAFE_INTEGER);
    if r.Some? then r else FormatSearch(NumXor(e, 21522), NumXor(t, 21522), 0, 0, MAX_SAFE_INTEGER)
  }

  method DoDecodeFormatInformation(e: nat, t: nat) returns (r: Option<nat>)
    ensures r == FormatSearch(e, t, 0, 0, MAX_SAFE_INTEGER)
  {
    hide F.FormatTable, NumBitsDiffering;
    var least, best := MAX_SAFE_INTEGER, 0;
    for k := 0 to 32
      invariant FormatSearch(e, t, k, best, least) == FormatSearch(e, t, 0, 0, MAX_SAFE_INTEGER)
    {
      var c := F.FormatTable(k);
      if c == e || c == t {
        return Some(k);
      }
      var h := NumBitsDiffering(e, c);
      if h < least {
        best, least := k, h;
      }
      if e != t {
        h := NumBitsDiffering(t, c);
        if h < least {
          best, least := k, h;
        }
      }
    }
    r := if least <= 3 then Some(best) else None;
  }

  method DecodeFormatInformation(e: nat, t: nat) returns (r: Option<nat>)
    ensures r == FormatDecoded(e, t)
  {
    r := DoDecodeFormatInformation(e, t);
    if r.None? {
      r := DoDecodeFormatInformation(NumXor(e, 21522), NumXor(t, 21522));
    }
  }

  /** A copy within distance three of a word is at distance four or more from all others. */
  lemma FarFromOthers(a: seq<bool>, w: nat, k: nat)
    requires |a| == 15 && w < 32 && k < 32 && k != w
    requires Hamming(a, F.FormatWord(F.FiveOf(w))) <= 3
    ensures NumBitsDiffering(BitsNum(a), F.FormatTable(k)) >= 4
  {
    var x, y := F.FormatWord(F.FiveOf(w)), F.FormatWord(F.FiveOf(k));
    FiveDistinct(w, k);
    hide F.FormatWord, F.FiveOf, Hamming, NumBitsDiffering, F.FormatTable;
    F.FormatTableRight(k);
    DifferingIsHamming(a, y);
    HammingTriangle(x, a, y);
    HammingSymmetric(a, x);
    F.FormatDistance(F.FiveOf(w), F.FiveOf(k));
  }

  lemma SameHalf(a: nat, b: nat)
    requires a / 2 == b / 2 && (a % 2 == 1) == (b % 2 == 1)
    ensures a == b
  {
  }

  lemma Halvings(k: nat)
    ensures k / 4 == k / 2 / 2 && k / 8 == k / 4 / 2 && k / 16 == k / 8 / 2 && k / 32 == k / 16 / 2
  {
  }

  lemma SameFive(w: nat, k: nat)
    requires w < 64 && k < 64 && w / 32 == k / 32
    requires (w % 2 == 1) == (k % 2 == 1) && (w / 2 % 2 == 1) == (k / 2 % 2 == 1) && (w / 4 % 2 == 1) == (k / 4 % 2 == 1)
    requires (w / 8 % 2 == 1) == (k / 8 % 2 == 1) && (w / 16 % 2 == 1) == (k / 16 % 2 == 1)
    ensures w == k
  {
    Halvings(w);
    Halvings(k);
    SameHalf(w / 16, k / 16);
    SameHalf(w / 8, k / 8);
    SameHalf(w / 4, k / 4);
    SameHalf(w / 2, k / 2);
    SameHalf(w, k);
  }

  lemma FiveDistinct(w: nat, k: nat)
    requires w < 32 && k < 32 && k != w
    ensures F.FiveOf(w) != F.FiveOf(k)
  {
    hide F.FiveOf;
    if F.FiveOf(w) == F.FiveOf(k) {
      FiveFields(w, k);
      SameFive(w, k);
    }
  }

  lemma FiveFields(w: nat, k: nat)
    requires F.FiveOf(w) == F.FiveOf(k)
    ensures (w % 2 == 1) == (k % 2 == 1) && (w / 2 % 2 == 1) == (k / 2 % 2 == 1) && (w / 4 % 2 == 1) == (k / 4 % 2 == 1)
    ensures (w / 8 % 2 == 1) == (k / 8 % 2 == 1) && (w / 16 % 2 == 1) == (k / 16 % 2 == 1)
  {
    assert F.FiveOf(w).b0 == F.FiveOf(k).b0 && F.FiveOf(w).b1 == F.FiveOf(k).b1;
    assert F.FiveOf(w).b2 == F.FiveOf(k).b2 && F.FiveOf(w).b3 == F.FiveOf(k).b3;
    assert F.FiveOf(w).b4 == F.FiveOf(k).b4;
  }

  lemma NearItself(a: seq<bool>, w: nat)
    requires |a| == 15 && w < 32 && Hamming(a, F.FormatWord(F.FiveOf(w))) <= 3
    ensures NumBitsDiffering(BitsNum(a), F.FormatTable(w)) <= 3
  {
    hide F.FormatWord, F.FiveOf, Hamming, NumBitsDiffering, F.FormatTable;
    F.FormatTableRight(w);
    DifferingIsHamming(a, F.FormatWord(F.FiveOf(w)));
  }

  lemma {:induction false} NothingApart(n: nat)
    ensures NumBitsDiffering(n, n) == 0
    decreases n
  {
    if n != 0 {
      NothingApart(n / 2);
    }
  }

  /** An entry at distance four or more from both copies does not displace a nearer one. */
  lemma NearerFar(e: nat, t: nat, k: nat, c: nat, best: nat, least: nat)
    requires NumBitsDiffering(e, c) >= 4 && NumBitsDiffering(t, c) >= 4
    ensures e != c && t != c
    ensures var (b, l) := Nearer(e, t, k, c, best, least);
            (least >= 4 ==> l >= 4) && (least <= 3 ==> b == best && l == least)
  {
    NothingApart(c);
  }

  lemma NearerNear(e: nat, t: nat, k: nat, c: nat, best: nat, least: nat)
    requires NumBitsDiffering(e, c) <= 3 && NumBitsDiffering(t, c) <= 3 && least >= 4
    ensures var (b, l) := Nearer(e, t, k, c, best, least); b == k && l <= 3
  {
  }

  /** The search finds word w from entry k on, if it has not passed it, or holds it already. */
  lemma {:induction false} FormatFound(a: seq<bool>, b: seq<bool>, w: nat, k: nat, best: nat, least: nat)
    requires |a| == |b| == 15 && w < 32 && k <= 32
    requires Hamming(a, F.FormatWord(F.FiveOf(w))) <= 3 && Hamming(b, F.FormatWord(F.FiveOf(w))) <= 3
    requires if k <= w then least >= 4 else least <= 3 && best == w
    ensures FormatSearch(BitsNum(a), BitsNum(b), k, best, least) == Some(w)
    decreases 32 - k
  {
    hide F.FormatWord, F.FiveOf, Hamming, NumBitsDiffering, F.FormatTable, BitsNum, Nearer;
    if k < 32 {
      var e, t, c := BitsNum(a), BitsNum(b), F.FormatTable(k);
      var n := Nearer(e, t, k, c, best, least);
      if k == w {
        NearItself(a, w);
        NearItself(b, w);
        NearerNear(e, t, k, c, best, least);
        FormatFound(a, b, w, k + 1, n.0, n.1);
      } else {
        FarFromOthers(a, w, k);
        FarFromOthers(b, w, k);
        NearerFar(e, t, k, c, best, least);
        FormatFound(a, b, w, k + 1, n.0, n.1);
      }
    }
  }

  /** Both copies may have up to three wrong bits each. */
  lemma FormatSurvives(a: seq<bool>, b: seq<bool>, w: nat)
    requires |a| == |b| == 15 && w < 32
    requires Hamming(a, F.FormatWord(F.FiveOf(w))) <= 3 && Hamming(b, F.FormatWord(F.FiveOf(w))) <= 3
    ensures FormatDecoded(BitsNum(a), BitsNum(b)) == Some(w)
  {
    FormatFound(a, b, w, 0, 0, MAX_SAFE_INTEGER);
  }

  // ---- Version words

  function VersionSearch(e: nat, k: nat, best: nat, least: nat): Option<nat>
    requires k <= 34
    decreases 34 - k
  {
    if k == 34 then (if least <= 3 then Some(best) else None) else
    var c := V.VersionTable(k);
    if c == e then Some(k + 7) else
    var h := NumBitsDiffering(e, c);
    if h < least then VersionSearch(e, k + 1, k + 7, h) else VersionSearch(e, k + 1, best, least)
  }

  method DecodeVersionInformation(e: nat) returns (r: Option<nat>)
    ensures r == VersionSearch(e, 0, 0, MAX_SAFE_INTEGER)
  {
    hide V.VersionTable, NumBitsDiffering;
    var least, best := MAX_SAFE_INTEGER, 0;
    for k := 0 to 34
      invariant VersionSearch(e, k, best, least) == VersionSearch(e, 0, 0, MAX_SAFE_INTEGER)
    {
      var c := V.VersionTable(k);
      if c == e {
        return Some(k + 7);
      }
      var h := NumBitsDiffering(e, c);
      if h < least {
        best, least := k + 7, h;
      }
    }
    r := if least <= 3 then Some(best) else None;
  }

  lemma VersionFarFromOthers(a: seq<bool>, w: nat, k: nat)
    requires |a| == 18 && w < 34 && k < 34 && k != w
    requires Hamming(a, V.VersionWord(V.SixOf(w + 7))) <= 3
    ensures NumBitsDiffering(BitsNum(a), V.VersionTable(k)) >= 4
  {
    var x, y := V.VersionWord(V.SixOf(w + 7)), V.VersionWord(V.SixOf(k + 7));
    SixDistinct(w + 7, k + 7);
    hide V.VersionWord, V.SixOf, Hamming, NumBitsDiffering, V.VersionTable;
    V.VersionTableRight(k);
    DifferingIsHamming(a, y);
    HammingTriangle(x, a, y);
    HammingSymmetric(a, x);
    V.VersionDistance(V.SixOf(w + 7), V.SixOf(k + 7));
  }

  lemma SixDistinct(w: nat, k: nat)
    requires w < 64 && k < 64 && k != w
    ensures V.SixOf(w) != V.SixOf(k)
  {
    hide V.SixOf;
    if V.SixOf(w) == V.SixOf(k) {
      SixFields(w, k);
      SameTop(w, k);
      SameFive(w, k);
    }
  }

  lemma SameTop(w: nat, k: nat)
    requires w < 64 && k < 64 && (w / 32 % 2 == 1) == (k / 32 % 2 == 1)
    ensures w / 32 == k / 32
  {
    assert w / 32 == 0 || w / 32 == 1;
    assert k / 32 == 0 || k / 32 == 1;
  }

  lemma SixFields(w: nat, k: nat)
    requires V.SixOf(w) == V.SixOf(k)
    ensures (w % 2 == 1) == (k % 2 == 1) && (w / 2 % 2 == 1) == (k / 2 % 2 == 1) && (w / 4 % 2 == 1) == (k / 4 % 2 == 1)
    ensures (w / 8 % 2 == 1) == (k / 8 % 2 == 1) && (w / 16 % 2 == 1) == (k / 16 % 2 == 1)
    ensures (w / 32 % 2 == 1) == (k / 32 % 2 == 1)
  {
    assert V.SixOf(w).b0 == V.SixOf(k).b0 && V.SixOf(w).b1 == V.SixOf(k).b1 && V.SixOf(w).b2 == V.SixOf(k).b2;
    assert V.SixOf(w).b3 == V.SixOf(k).b3 && V.SixOf(w).b4 == V.SixOf(k).b4 && V.SixOf(w).b5 == V.SixOf(k).b5;
  }

  lemma VersionNearItself(a: seq<bool>, w: nat)
    requires |a| == 18 && w < 34 && Hamming(a, V.VersionWord(V.SixOf(w + 7))) <= 3
    ensures NumBitsDiffering(BitsNum(a), V.VersionTable(w)) <= 3
  {
    hide V.VersionWord, V.SixOf, Hamming, NumBitsDiffering, V.VersionTable;
    V.VersionTableRight(w);
    DifferingIsHamming(a, V.VersionWord(V.SixOf(w + 7)));
  }

  lemma {:induction false} VersionFound(a: seq<bool>, w: nat, k: nat, best: nat, least: nat)
    requires |a| == 18 && w < 34 && k <= 34 && Hamming(a, V.VersionWord(V.SixOf(w + 7))) <= 3
    requires if k <= w then least >= 4 else least <= 3 && best == w + 7
    ensures VersionSearch(BitsNum(a), k, best, least) == Some(w + 7)
    decreases 34 - k
  {
    hide V.VersionWord, V.SixOf, Hamming, NumBitsDiffering, V.VersionTable, BitsNum;
    if k < 34 {
      var e, c := BitsNum(a), V.VersionTable(k);
      NothingApart(c);
      var h := NumBitsDiffering(e, c);
      if k == w {
        VersionNearItself(a, w);
        VersionFound(a, w, k + 1, k + 7, h);
      } else {
        VersionFarFromOthers(a, w, k);
        if h < least {
          VersionFound(a, w, k + 1, k + 7, h);
        } else {
          VersionFound(a, w, k + 1, best, least);
        }
      }
    }
  }

  /** A copy of the version information may have up to three wrong bits. */
  lemma VersionSurvives(a: seq<bool>, v: nat)
    requires |a| == 18 && 7 <= v <= 40 && Hamming(a, V.VersionWord(V.SixOf(v))) <= 3
    ensures VersionSearch(BitsNum(a), 0, 0, MAX_SAFE_INTEGER) == Some(v)
  {
    VersionFound(a, v - 7, 0, 0, MAX_SAFE_INTEGER);
  }

  // ---- The copies in the symbol

  /** The first copy of the format information, in the order it is read. */
  ghost function FormatCopy1(g: map<Cell, bool>): (b: seq<bool>)
    requires forall a :: 0 <= a < 15 ==> TypeCell1(a) in g
    ensures |b| == 15
  {
    seq(15, i requires 0 <= i < 15 => g[TypeCell1(14 - i)])
  }

  ghost function FormatCopy2(g: map<Cell, bool>, dim: int): (b: seq<bool>)
    requires forall a :: 0 <= a < 15 ==> TypeCell2(dim, a) in g
    ensures |b| == 15
  {
    seq(15, i requires 0 <= i < 15 => g[TypeCell2(dim, 14 - i)])
  }

  /** Which group of three place i below 18 belongs to. */
  function Triple(i: nat): (a: nat)
    requires i < 18
    ensures a < 6 && 3 * a <= i < 3 * a + 3
  {
    if i < 3 then 0 else if i < 6 then 1 else if i < 9 then 2 else if i < 12 then 3 else if i < 15 then 4 else 5
  }

  /** The i-th cell read of the copy beside the upper right finder, and of the other one. */
  function VersionRead1(dim: int, i: nat): Cell
    requires i < 18
  {
    VersionCell2(dim, Triple(17 - i), 17 - i - 3 * Triple(17 - i))
  }

  function VersionRead2(dim: int, i: nat): Cell
    requires i < 18
  {
    VersionCell1(dim, Triple(17 - i), 17 - i - 3 * Triple(17 - i))
  }

  ghost predicate HasVersionCells(g: map<Cell, bool>, dim: int) {
    forall i :: 0 <= i < 18 ==> VersionRead1(dim, i) in g && VersionRead2(dim, i) in g
  }

  ghost function VersionCopy1(g: map<Cell, bool>, dim: int): (b: seq<bool>)
    requires HasVersionCells(g, dim)
    ensures |b| == 18
  {
    seq(18, i requires 0 <= i < 18 => g[VersionRead1(dim, i)])
  }

  ghost function VersionCopy2(g: map<Cell, bool>, dim: int): (b: seq<bool>)
    requires HasVersionCells(g, dim)
    ensures |b| == 18
  {
    seq(18, i requires 0 <= i < 18 => g[VersionRead2(dim, i)])
  }

  lemma FormatCopyAt(g: map<Cell, bool>, dim: int, i: nat)
    requires forall a :: 0 <= a < 15 ==> TypeCell1(a) in g && TypeCell2(dim, a) in g
    requires i < 15
    ensures FormatCopy1(g)[i] == g[TypeCell1(14 - i)] && FormatCopy2(g, dim)[i] == g[TypeCell2(dim, 14 - i)]
  {
  }

  lemma TripleIs(a: int, o: int)
    requires 0 <= a < 6 && 0 <= o < 3
    ensures Triple(3 * a + o) == a
  {
  }

  lemma VersionReadIs(dim: int, a: int, o: int)
    requires 0 <= a < 6 && 0 <= o < 3
    ensures VersionRead1(dim, 17 - (3 * a + o)) == VersionCell2(dim, a, o)
    ensures VersionRead2(dim, 17 - (3 * a + o)) == VersionCell1(dim, a, o)
  {
    hide Triple;
    TripleIs(a, o);
    assert 17 - (17 - (3 * a + o)) == 3 * a + o;
  }

  /** The modules with x and y exchanged. */
  ghost function Transposed(g: map<Cell, bool>): map<Cell, bool> {
    map c | c in g && Cell(c.y, c.x) in g :: g[Cell(c.y, c.x)]
  }

  /** What the reader sees, with its mirror flag. */
  ghost function Seen(g: map<Cell, bool>, mirror: bool): map<Cell, bool> {
    if mirror then Transposed(g) else g
  }

  method CopyBit(m: BitMatrix, mirror: bool, x: int, y: int, n: nat) returns (r: nat)
    requires m.Valid() && m.Within(Cell(x, y)) && m.Within(Cell(y, x))
    ensures Cell(x, y) in Seen(m.grid, mirror) && r == 2 * n + Weight(Seen(m.grid, mirror)[Cell(x, y)], 1)
  {
    var b: bool;
    if mirror {
      b := m.Get(y, x);
      InGrid(m, Cell(x, y));
    } else {
      b := m.Get(x, y);
    }
    r := if b then 2 * n + 1 else 2 * n;
  }

  lemma InGrid(m: BitMatrix, c: Cell)
    requires m.Valid() && m.Within(c)
    ensures c in m.grid
  {
  }

  /** In a square symbol it sees as many modules either way. */
  lemma SeenSquare(m: BitMatrix, mirror: bool)
    requires m.Valid() && m.width == m.height
    ensures forall c: Cell :: c in Seen(m.grid, mirror) <==> Inside(c, m.width, m.width)
  {
    GridInside(m.bits[..], m.grid, m.width, m.height);
  }

  lemma TypeCellsInside(dim: int, a: nat)
    requires a < 15 && dim >= 21
    ensures Inside(TypeCell1(a), dim, dim) && Inside(TypeCell2(dim, a), dim, dim)
  {
  }

  /** Both copies of the format information, and the search. */
  method ReadFormatInformation(m: BitMatrix, mirror: bool) returns (r: Option<nat>)
    requires m.Valid() && m.width == m.height >= 21
    ensures forall a :: 0 <= a < 15 ==> TypeCell1(a) in Seen(m.grid, mirror) && TypeCell2(m.width, a) in Seen(m.grid, mirror)
    ensures r == FormatDecoded(BitsNum(FormatCopy1(Seen(m.grid, mirror))), BitsNum(FormatCopy2(Seen(m.grid, mirror), m.width)))
  {
    hide PrefixNum, BitsNum, Seen;
    SeenSquare(m, mirror);
    forall a | 0 <= a < 15 ensures TypeCell1(a) in Seen(m.grid, mirror) && TypeCell2(m.width, a) in Seen(m.grid, mirror) {
      TypeCellsInside(m.width, a);
    }
    var e := ReadFormatCopy1(m, mirror);
    var t := ReadFormatCopy2(m, mirror);
    r := DecodeFormatInformation(e, t);
  }

  method ReadFormatCopy1(m: BitMatrix, mirror: bool) returns (e: nat)
    requires m.Valid() && m.width == m.height >= 21
    requires forall a :: 0 <= a < 15 ==> TypeCell1(a) in Seen(m.grid, mirror) && TypeCell2(m.width, a) in Seen(m.grid, mirror)
    ensures e == BitsNum(FormatCopy1(Seen(m.grid, mirror)))
  {
    hide PrefixNum, BitsNum, Weight, FormatCopy1, Represents, Seen;
    ghost var b := FormatCopy1(Seen(m.grid, mirror));
    PrefixNumEnds(b);
    e := 0;
    for x := 0 to 6
      invariant e == PrefixNum(b, x)
    {
      PrefixNumStep(b, x);
      FormatCopyAt(Seen(m.grid, mirror), m.width, x);
      e := CopyBit(m, mirror, x, 8, e);
    }
    PrefixNumStep(b, 6);
    FormatCopyAt(Seen(m.grid, mirror), m.width, 6);
    e := CopyBit(m, mirror, 7, 8, e);
    PrefixNumStep(b, 7);
    FormatCopyAt(Seen(m.grid, mirror), m.width, 7);
    e := CopyBit(m, mirror, 8, 8, e);
    PrefixNumStep(b, 8);
    FormatCopyAt(Seen(m.grid, mirror), m.width, 8);
    e := CopyBit(m, mirror, 8, 7, e);
    var y: int := 5;
    while y >= 0
      invariant -1 <= y <= 5 && e == PrefixNum(b, 14 - y)
    {
      PrefixNumStep(b, 14 - y);
      FormatCopyAt(Seen(m.grid, mirror), m.width, 14 - y);
      e := CopyBit(m, mirror, 8, y, e);
      y := y - 1;
    }
  }

  method ReadFormatCopy2(m: BitMatrix, mirror: bool) returns (e: nat)
    requires m.Valid() && m.width == m.height >= 21
    requires forall a :: 0 <= a < 15 ==> TypeCell1(a) in Seen(m.grid, mirror) && TypeCell2(m.width, a) in Seen(m.grid, mirror)
    ensures e == BitsNum(FormatCopy2(Seen(m.grid, mirror), m.width))
  {
    hide PrefixNum, BitsNum, Weight, FormatCopy2, Represents, Seen;
    var dim: int := m.height;
    ghost var b := FormatCopy2(Seen(m.grid, mirror), dim);
    PrefixNumEnds(b);
    e := 0;
    var y: int := dim - 1;
    while y >= dim - 7
      invariant dim - 8 <= y <= dim - 1 && e == PrefixNum(b, dim - 1 - y)
    {
      PrefixNumStep(b, dim - 1 - y);
      FormatCopyAt(Seen(m.grid, mirror), dim, dim - 1 - y);
      e := CopyBit(m, mirror, 8, y, e);
      y := y - 1;
    }
    for x := dim - 8 to dim
      invariant e == PrefixNum(b, x - dim + 15)
    {
      PrefixNumStep(b, x - dim + 15);
      FormatCopyAt(Seen(m.grid, mirror), dim, x - dim + 15);
      e := CopyBit(m, mirror, x, 8, e);
    }
  }

  // ---- Version

  lemma Version1Step(g: map<Cell, bool>, dim: int, a: int, o: int)
    requires HasVersionCells(g, dim) && 0 <= a < 6 && 0 <= o < 3
    ensures Cell(dim - 11 + o, a) in g
    ensures PrefixNum(VersionCopy1(g, dim), 18 - (3 * a + o))
            == 2 * PrefixNum(VersionCopy1(g, dim), 17 - (3 * a + o)) + Weight(g[Cell(dim - 11 + o, a)], 1)
  {
    hide PrefixNum, Weight, VersionRead1;
    VersionReadIs(dim, a, o);
    PrefixNumStep(VersionCopy1(g, dim), 17 - (3 * a + o));
    assert VersionCell2(dim, a, o) == Cell(dim - 11 + o, a);
  }

  lemma Version2Step(g: map<Cell, bool>, dim: int, a: int, o: int)
    requires HasVersionCells(g, dim) && 0 <= a < 6 && 0 <= o < 3
    ensures Cell(a, dim - 11 + o) in g
    ensures PrefixNum(VersionCopy2(g, dim), 18 - (3 * a + o))
            == 2 * PrefixNum(VersionCopy2(g, dim), 17 - (3 * a + o)) + Weight(g[Cell(a, dim - 11 + o)], 1)
  {
    hide PrefixNum, Weight, VersionRead2;
    VersionReadIs(dim, a, o);
    PrefixNumStep(VersionCopy2(g, dim), 17 - (3 * a + o));
    assert VersionCell1(dim, a, o) == Cell(a, dim - 11 + o);
  }

  method ReadVersionCopy1(m: BitMatrix, mirror: bool) returns (e: nat)
    requires m.Valid() && m.width == m.height >= 21
    requires HasVersionCells(Seen(m.grid, mirror), m.width)
    ensures e == BitsNum(VersionCopy1(Seen(m.grid, mirror), m.width))
  {
    hide PrefixNum, BitsNum, Weight, VersionCopy1, Represents, HasVersionCells, Seen;
    var dim: int := m.height;
    ghost var b := VersionCopy1(Seen(m.grid, mirror), dim);
    PrefixNumEnds(b);
    e := 0;
    var a: int := 5;
    while a >= 0
      invariant -1 <= a <= 5 && e == PrefixNum(b, 15 - 3 * a)
    {
      var o: int := dim - 9;
      while o >= dim - 11
        invariant dim - 12 <= o <= dim - 9 && e == PrefixNum(b, 15 - 3 * a + (dim - 9 - o))
      {
        Version1Step(Seen(m.grid, mirror), dim, a, o - dim + 11);
        e := CopyBit(m, mirror, o, a, e);
        o := o - 1;
      }
      a := a - 1;
    }
  }

  method ReadVersionCopy2(m: BitMatrix, mirror: bool) returns (e: nat)
    requires m.Valid() && m.width == m.height >= 21
    requires HasVersionCells(Seen(m.grid, mirror), m.width)
    ensures e == BitsNum(VersionCopy2(Seen(m.grid, mirror), m.width))
  {
    hide PrefixNum, BitsNum, Weight, VersionCopy2, Represents, HasVersionCells, Seen;
    var dim: int := m.height;
    ghost var b := VersionCopy2(Seen(m.grid, mirror), dim);
    PrefixNumEnds(b);
    e := 0;
    var o: int := 5;
    while o >= 0
      invariant -1 <= o <= 5 && e == PrefixNum(b, 15 - 3 * o)
    {
      var a: int := dim - 9;
      while a >= dim - 11
        invariant dim - 12 <= a <= dim - 9 && e == PrefixNum(b, 15 - 3 * o + (dim - 9 - a))
      {
        Version2Step(Seen(m.grid, mirror), dim, o, a - dim + 11);
        e := CopyBit(m, mirror, o, a, e);
        a := a - 1;
      }
      o := o - 1;
    }
  }

  lemma VersionCellsInside(m: BitMatrix, mirror: bool)
    requires m.Valid() && m.width == m.height >= 21
    ensures HasVersionCells(Seen(m.grid, mirror), m.width)
  {
    hide Triple, Seen;
    SeenSquare(m, mirror);
  }

  /** The version a symbol of the given size claims, up to 6 by the size alone, above by the
      first copy that agrees with the size. */
  function VersionRead(dim: int, e: nat, t: nat): Option<nat>
    requires dim >= 21
  {
    var provisional := (dim - 17) / 4;
    if provisional <= 6 then Some(provisional) else
    var r := VersionSearch(e, 0, 0, MAX_SAFE_INTEGER);
    if r.Some? && 17 + 4 * r.value == dim then r else
    var s := VersionSearch(t, 0, 0, MAX_SAFE_INTEGER);
    if s.Some? && 17 + 4 * s.value == dim then s else None
  }

  method ReadVersion(m: BitMatrix, mirror: bool) returns (r: Option<nat>)
    requires m.Valid() && m.width == m.height >= 21
    ensures HasVersionCells(Seen(m.grid, mirror), m.width)
    ensures r == VersionRead(m.width, BitsNum(VersionCopy1(Seen(m.grid, mirror), m.width)), BitsNum(VersionCopy2(Seen(m.grid, mirror), m.width)))
  {
    hide BitsNum, VersionSearch, HasVersionCells, VersionCopy1, VersionCopy2, Seen;
    VersionCellsInside(m, mirror);
    var dim := m.height;
    var provisional := (dim - 17) / 4;
    if provisional <= 6 {
      return Some(provisional);
    }
    var e := ReadVersionCopy1(m, mirror);
    r := DecodeVersionInformation(e);
    if r.Some? && 17 + 4 * r.value == dim {
      return;
    }
    e := ReadVersionCopy2(m, mirror);
    r := DecodeVersionInformation(e);
    if r.Some? && 17 + 4 * r.value == dim {
      return;
    }
    r := None;
  }

  /** One copy within distance three is enough, since the other is checked against the size. */
  lemma VersionReadBack(v: nat, a: seq<bool>, b: seq<bool>)
    requires 7 <= v <= 40 && |a| == |b| == 18
    requires Hamming(a, V.VersionWord(V.SixOf(v))) <= 3 || Hamming(b, V.VersionWord(V.SixOf(v))) <= 3
    ensures VersionRead(17 + 4 * v, BitsNum(a), BitsNum(b)) == Some(v)
  {
    hide VersionSearch, BitsNum, Hamming;
    if Hamming(a, V.VersionWord(V.SixOf(v))) <= 3 {
      VersionSurvives(a, v);
    } else {
      VersionSurvives(b, v);
    }
  }

  // ---- Level and mask in one number

  function LevelBits(l: Level): nat {
    match l case L => 1 case M => 0 case Q => 3 case H => 2
  }

  function LevelForBits(b: nat): Level {
    match b case 0 => M case 1 => L case 2 => H case _ => Q
  }

  /** What the format information stands for. */
  function FormatData(l: Level, mask: nat): nat {
    8 * LevelBits(l) + mask
  }

  lemma FormatDataInverse(l: Level, mask: nat)
    requires mask < 8
    ensures FormatData(l, mask) < 32
    ensures LevelForBits(FormatData(l, mask) / 8 % 4) == l && FormatData(l, mask) % 8 == mask
  {
  }
}
