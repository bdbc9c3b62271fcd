/** The version table against the two columns of table 9 of ISO/IEC 18004:2015 that determine it:
    the check symbols of a block and the number of blocks.  The rest follows from the number of
    modules left for data. */
module VersionTable {
  import opened DataCellCount
  import opened Versions
  import QrEncoder

  /** A number for each level. */
  datatype Levels = Levels(l: nat, m: nat, q: nat, h: nat) {
    function At(level: Level): nat {
      match level case L => l case M => m case Q => q case H => h
    }
  }

  /** The check symbols of every block. */
  function CheckSymbols(v: int): Levels
    requires IsVersion(v)
  {
    match v
    case 1 => Levels(7, 10, 13, 17)
    case 2 => Levels(10, 16, 22, 28)
    case 3 => Levels(15, 26, 18, 22)
    case 4 => Levels(20, 18, 26, 16)
    case 5 => Levels(26, 24, 18, 22)
    case 6 => Levels(18, 16, 24, 28)
    case 7 => Levels(20, 18, 18, 26)
    case 8 => Levels(24, 22, 22, 26)
    case 9 => Levels(30, 22, 20, 24)
    case 10 => Levels(18, 26, 24, 28)
    case 11 => Levels(20, 30, 28, 24)
    case 12 => Levels(24, 22, 26, 28)
    case 13 => Levels(26, 22, 24, 22)
    case 14 => Levels(30, 24, 20, 24)
    case 15 => Levels(22, 24, 30, 24)
    case 16 => Levels(24, 28, 24, 30)
    case 17 => Levels(28, 28, 28, 28)
    case 18 => Levels(30, 26, 28, 28)
    case 19 => Levels(28, 26, 26, 26)
    case 20 => Levels(28, 26, 30, 28)
    case 21 => Levels(28, 26, 28, 30)
    case 22 => Levels(28, 28, 30, 24)
    case 23 => Levels(30, 28, 30, 30)
    case 24 => Levels(30, 28, 30, 30)
    case 25 => Levels(26, 28, 30, 30)
    case 26 => Levels(28, 28, 28, 30)
    case 27 => Levels(30, 28, 30, 30)
    case 28 => Levels(30, 28, 30, 30)
    case 29 => Levels(30, 28, 30, 30)
    case 30 => Levels(30, 28, 30, 30)
    case 31 => Levels(30, 28, 30, 30)
    case 32 => Levels(30, 28, 30, 30)
    case 33 => Levels(30, 28, 30, 30)
    case 34 => Levels(30, 28, 30, 30)
    case 35 => Levels(30, 28, 30, 30)
    case 36 => Levels(30, 28, 30, 30)
    case 37 => Levels(30, 28, 30, 30)
    case 38 => Levels(30, 28, 30, 30)
    case 39 => Levels(30, 28, 30, 30)
    case _ => Levels(30, 28, 30, 30)
  }

  /** The number of blocks. */
  function BlockCounts(v: int): Levels
    requires IsVersion(v)
  {
    match v
    case 1 => Levels(1, 1, 1, 1)
    case 2 => Levels(1, 1, 1, 1)
    case 3 => Levels(1, 1, 2, 2)
    case 4 => Levels(1, 2, 2, 4)
    case 5 => Levels(1, 2, 4, 4)
    case 6 => Levels(2, 4, 4, 4)
    case 7 => Levels(2, 4, 6, 5)
    case 8 => Levels(2, 4, 6, 6)
    case 9 => Levels(2, 5, 8, 8)
    case 10 => Levels(4, 5, 8, 8)
    case 11 => Levels(4, 5, 8, 11)
    case 12 => Levels(4, 8, 10, 11)
    case 13 => Levels(4, 9, 12, 16)
    case 14 => Levels(4, 9, 16, 16)
    case 15 => Levels(6, 10, 12, 18)
    case 16 => Levels(6, 10, 17, 16)
    case 17 => Levels(6, 11, 16, 19)
    case 18 => Levels(6, 13, 18, 21)
    case 19 => Levels(7, 14, 21, 25)
    case 20 => Levels(8, 16, 20, 25)
    case 21 => Levels(8, 17, 23, 25)
    case 22 => Levels(9, 17, 23, 34)
    case 23 => Levels(9, 18, 25, 30)
    case 24 => Levels(10, 20, 27, 32)
    case 25 => Levels(12, 21, 29, 35)
    case 26 => Levels(12, 23, 34, 37)
    case 27 => Levels(12, 25, 34, 40)
    case 28 => Levels(13, 26, 35, 42)
    case 29 => Levels(14, 28, 38, 45)
    case 30 => Levels(15, 29, 40, 48)
    case 31 => Levels(16, 31, 43, 51)
    case 32 => Levels(17, 33, 45, 54)
    case 33 => Levels(18, 35, 48, 57)
    case 34 => Levels(19, 37, 51, 60)
    case 35 => Levels(19, 38, 53, 63)
    case 36 => Levels(20, 40, 56, 66)
    case 37 => Levels(21, 43, 59, 70)
    case 38 => Levels(22, 45, 62, 74)
    case 39 => Levels(24, 47, 65, 77)
    case _ => Levels(25, 49, 68, 81)
  }

  predicate Agrees(g: Groups, checks: nat, blocks: nat) {
    g.ec == checks && NumBlocks(g) == blocks
  }

  /** A row of the table agrees with the columns. */
  predicate RowAgrees(v: int)
    requires IsVersion(v)
  {
    var r, c, b := Table(v), CheckSymbols(v), BlockCounts(v);
    Agrees(r.l, c.l, b.l) && Agrees(r.m, c.m, b.m) && Agrees(r.q, c.q, b.q) && Agrees(r.h, c.h, b.h)
  }

  lemma Rows1(v: int)
    requires 1 <= v <= 5
    ensures RowAgrees(v)
  {
  }

  lemma Rows2(v: int)
    requires 6 <= v <= 10
    ensures RowAgrees(v)
  {
  }

  lemma Rows3(v: int)
    requires 11 <= v <= 15
    ensures RowAgrees(v)
  {
  }

  lemma Rows4(v: int)
    requires 16 <= v <= 20
    ensures RowAgrees(v)
  {
  }

  lemma Rows5(v: int)
    requires 21 <= v <= 25
    ensures RowAgrees(v)
  {
  }

  lemma Rows6(v: int)
    requires 26 <= v <= 30
    ensures RowAgrees(v)
  {
  }

  lemma Rows7(v: int)
    requires 31 <= v <= 35
    ensures RowAgrees(v)
  {
  }

  lemma Rows8(v: int)
    requires 36 <= v <= 40
    ensures RowAgrees(v)
  {
  }

  lemma RowsAgree(v: int)
    requires IsVersion(v)
    ensures RowAgrees(v)
  {
    hide RowAgrees;
    if v <= 5 {
      Rows1(v);
    } else if v <= 10 {
      Rows2(v);
    } else if v <= 15 {
      Rows3(v);
    } else if v <= 20 {
      Rows4(v);
    } else if v <= 25 {
      Rows5(v);
    } else if v <= 30 {
      Rows6(v);
    } else if v <= 35 {
      Rows7(v);
    } else {
      Rows8(v);
    }
  }

  /** Every entry of the table follows from its two columns and the modules that the symbol leaves
      for data: the blocks share the codewords evenly, and the longer ones are the last. */
  lemma TableDetermined(v: int, level: Level)
    requires IsVersion(v)
    ensures var g := GroupsFor(v, level);
            var n := BlockCounts(v).At(level);
            var total := DataModules(v) / 8;
            && n > 0 && g.ec == CheckSymbols(v).At(level)
            && g.c1 == n - total % n && g.c2 == total % n
            && g.d1 == total / n - g.ec && (g.c2 > 0 ==> g.d2 == g.d1 + 1)
  {
    hide Table, CheckSymbols, BlockCounts, DataModules, TotalCodewords, GroupTotal;
    RowsAgree(v);
    RoomIsExact(v);
    DataIsGroupData(v, level);
    Shared(GroupsFor(v, level), TotalCodewords(v));
  }

  /** Blocks of two neighbouring lengths are determined by their number and the total. */
  lemma Shared(g: Groups, total: nat)
    requires GroupsOk(g, total)
    ensures var n := NumBlocks(g);
            n > 0 && total % n == g.c2 && total / n == g.d1 + g.ec
  {
    var n := NumBlocks(g);
    var d := g.d1 + g.ec;
    assert g.c2 * (g.d2 + g.ec) == g.c2 * d + g.c2;
    assert g.c1 * d + g.c2 * d == d * n;
    assert total == d * n + g.c2;
    QrEncoder.DivideShape(n, d, g.c2);
  }
}
