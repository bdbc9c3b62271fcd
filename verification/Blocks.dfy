/** Blocks of a QR symbol (section 7.6 of ISO/IEC 18004:2015): the data bytes are cut into
    blocks, each block gets its check symbols, and all of them are interleaved column by
    column.  The reader puts them back. */
module Blocks {
  import opened BitStrings
  import opened Layout

  /** c1 blocks of d data bytes, then c2 blocks of d + 1, each with ec check symbols. */
  datatype Shape = Shape(c1: nat, c2: nat, d: nat, ec: nat) {
    function Count(): nat {
      c1 + c2
    }

    function DataLen(i: nat): nat {
      if i < c1 then d else d + 1
    }

    /** Where the data of block i start. */
    function Offset(i: nat): nat {
      Rows(i, d) + if i < c1 then 0 else i - c1
    }

    function TotalData(): nat {
      Rows(d, Count()) + c2
    }

    function Total(): nat {
      Rows(d, Count()) + c2 + Rows(ec, Count())
    }

    /** Where symbol j of block i goes. */
    function Position(i: nat, j: nat): nat {
      if j < d then Rows(j, Count()) + i
      else if j < DataLen(i) then Rows(d, Count()) + (i - c1)
      else Rows(d, Count()) + c2 + Rows(j - DataLen(i), Count()) + i
    }
  }

  datatype Block = Block(data: seq<Byte>, ec: seq<Byte>)

  predicate HasShape(blocks: seq<Block>, s: Shape) {
    && |blocks| == s.Count()
    && forall i :: 0 <= i < |blocks| ==> |blocks[i].data| == s.DataLen(i) && |blocks[i].ec| == s.ec
  }

  // ---- Writing

  /** Byte j of every block that has one. */
  function DataColumn(blocks: seq<Block>, j: nat): seq<Byte> {
    if blocks == [] then [] else
    var n := |blocks| - 1;
    DataColumn(blocks[..n], j) + if j < |blocks[n].data| then [blocks[n].data[j]] else []
  }

  function EcColumn(blocks: seq<Block>, j: nat): seq<Byte> {
    if blocks == [] then [] else
    var n := |blocks| - 1;
    EcColumn(blocks[..n], j) + if j < |blocks[n].ec| then [blocks[n].ec[j]] else []
  }

  function DataColumns(blocks: seq<Block>, m: nat): seq<Byte> {
    if m == 0 then [] else DataColumns(blocks, m - 1) + DataColumn(blocks, m - 1)
  }

  function EcColumns(blocks: seq<Block>, m: nat): seq<Byte> {
    if m == 0 then [] else EcColumns(blocks, m - 1) + EcColumn(blocks, m - 1)
  }

  function MaxData(blocks: seq<Block>): nat {
    if blocks == [] then 0 else
    var m, n := MaxData(blocks[..|blocks| - 1]), |blocks[|blocks| - 1].data|;
    if m < n then n else m
  }

  function MaxEc(blocks: seq<Block>): nat {
    if blocks == [] then 0 else
    var m, n := MaxEc(blocks[..|blocks| - 1]), |blocks[|blocks| - 1].ec|;
    if m < n then n else m
  }

  function Interleave(blocks: seq<Block>): seq<Byte> {
    DataColumns(blocks, MaxData(blocks)) + EcColumns(blocks, MaxEc(blocks))
  }

  // ---- Reading

  function BlockRead(cw: seq<Byte>, s: Shape, i: nat): (r: seq<Byte>)
    requires |cw| == s.Total() && i < s.Count()
    ensures |r| == s.DataLen(i) + s.ec
  {
    seq<Byte>(s.DataLen(i) + s.ec, j requires 0 <= j < s.DataLen(i) + s.ec =>
      PositionInside(s, i, j);
      cw[s.Position(i, j)])
  }

  /** The codewords of every block. */
  function Deinterleave(cw: seq<Byte>, s: Shape): (r: seq<seq<Byte>>)
    requires |cw| == s.Total()
    ensures |r| == s.Count()
  {
    seq<seq<Byte>>(s.Count(), i requires 0 <= i < s.Count() => BlockRead(cw, s, i))
  }

  lemma PositionInside(s: Shape, i: nat, j: nat)
    requires i < s.Count() && j < s.DataLen(i) + s.ec
    ensures s.Position(i, j) < s.Total()
  {
    var n := s.Count();
    if j < s.d {
      SlotInside(n, s.d, j, i);
    } else if j >= s.DataLen(i) {
      SlotInside(n, s.ec, j - s.DataLen(i), i);
    }
  }

  // ---- Columns

  lemma {:induction false} FullDataColumn(blocks: seq<Block>, j: nat)
    requires forall i :: 0 <= i < |blocks| ==> j < |blocks[i].data|
    ensures |DataColumn(blocks, j)| == |blocks|
    ensures forall i :: 0 <= i < |blocks| ==> DataColumn(blocks, j)[i] == blocks[i].data[j]
    decreases |blocks|
  {
    if blocks != [] {
      FullDataColumn(blocks[..|blocks| - 1], j);
    }
  }

  lemma {:induction false} FullEcColumn(blocks: seq<Block>, j: nat)
    requires forall i :: 0 <= i < |blocks| ==> j < |blocks[i].ec|
    ensures |EcColumn(blocks, j)| == |blocks|
    ensures forall i :: 0 <= i < |blocks| ==> EcColumn(blocks, j)[i] == blocks[i].ec[j]
    decreases |blocks|
  {
    if blocks != [] {
      FullEcColumn(blocks[..|blocks| - 1], j);
    }
  }

  /** The column only the longer blocks, those from c1 on, have. */
  lemma {:induction false} LastDataColumn(blocks: seq<Block>, j: nat, c1: nat)
    requires forall i :: 0 <= i < |blocks| ==> (j < |blocks[i].data| <==> c1 <= i)
    ensures |DataColumn(blocks, j)| == if |blocks| <= c1 then 0 else |blocks| - c1
    ensures forall i :: c1 <= i < |blocks| ==> DataColumn(blocks, j)[i - c1] == blocks[i].data[j]
    decreases |blocks|
  {
    if blocks != [] {
      LastDataColumn(blocks[..|blocks| - 1], j, c1);
    }
  }

  lemma {:induction false} DataColumnsLen(blocks: seq<Block>, m: nat)
    requires forall i :: 0 <= i < |blocks| ==> m <= |blocks[i].data|
    ensures |DataColumns(blocks, m)| == Rows(m, |blocks|)
    decreases m
  {
    if m != 0 {
      DataColumnsLen(blocks, m - 1);
      FullDataColumn(blocks, m - 1);
    }
  }

  lemma DataColumnsSplit(blocks: seq<Block>, m: nat)
    requires 0 < m
    ensures DataColumns(blocks, m) == DataColumns(blocks, m - 1) + DataColumn(blocks, m - 1)
  {
  }

  lemma {:induction false} DataColumnsAt(blocks: seq<Block>, m: nat, j: nat, i: nat)
    requires forall k :: 0 <= k < |blocks| ==> m <= |blocks[k].data|
    requires j < m && i < |blocks|
    ensures Rows(j, |blocks|) + i < |DataColumns(blocks, m)|
    ensures DataColumns(blocks, m)[Rows(j, |blocks|) + i] == blocks[i].data[j]
    decreases m
  {
    hide DataColumn, DataColumns, Rows;
    DataColumnsSplit(blocks, m);
    DataColumnsLen(blocks, m - 1);
    FullDataColumn(blocks, m - 1);
    if j < m - 1 {
      DataColumnsAt(blocks, m - 1, j, i);
    }
  }

  lemma {:induction false} EcColumnsLen(blocks: seq<Block>, m: nat)
    requires forall i :: 0 <= i < |blocks| ==> m <= |blocks[i].ec|
    ensures |EcColumns(blocks, m)| == Rows(m, |blocks|)
    decreases m
  {
    if m != 0 {
      EcColumnsLen(blocks, m - 1);
      FullEcColumn(blocks, m - 1);
    }
  }

  lemma EcColumnsSplit(blocks: seq<Block>, m: nat)
    requires 0 < m
    ensures EcColumns(blocks, m) == EcColumns(blocks, m - 1) + EcColumn(blocks, m - 1)
  {
  }

  lemma {:induction false} EcColumnsAt(blocks: seq<Block>, m: nat, j: nat, i: nat)
    requires forall k :: 0 <= k < |blocks| ==> m <= |blocks[k].ec|
    requires j < m && i < |blocks|
    ensures Rows(j, |blocks|) + i < |EcColumns(blocks, m)|
    ensures EcColumns(blocks, m)[Rows(j, |blocks|) + i] == blocks[i].ec[j]
    decreases m
  {
    hide EcColumn, EcColumns, Rows;
    EcColumnsSplit(blocks, m);
    EcColumnsLen(blocks, m - 1);
    FullEcColumn(blocks, m - 1);
    if j < m - 1 {
      EcColumnsAt(blocks, m - 1, j, i);
    }
  }

  lemma {:induction false} Maxima(blocks: seq<Block>, d: nat, c1: nat, e: nat)
    requires forall i :: 0 <= i < |blocks| ==>
               |blocks[i].data| == (if i < c1 then d else d + 1) && |blocks[i].ec| == e
    ensures blocks != [] ==> MaxData(blocks) == (if |blocks| <= c1 then d else d + 1) && MaxEc(blocks) == e
    decreases |blocks|
  {
    if |blocks| > 1 {
      Maxima(blocks[..|blocks| - 1], d, c1, e);
    } else if |blocks| == 1 {
      assert blocks[..0] == [];
    }
  }

  /** The interleaved bytes, part by part. */
  lemma InterleaveParts(blocks: seq<Block>, s: Shape)
    requires HasShape(blocks, s) && s.c1 >= 1
    ensures |DataColumns(blocks, s.d)| == Rows(s.d, s.Count())
    ensures |DataColumn(blocks, s.d)| == s.c2
    ensures |EcColumns(blocks, s.ec)| == Rows(s.ec, s.Count())
    ensures Interleave(blocks) == DataColumns(blocks, s.d) + DataColumn(blocks, s.d) + EcColumns(blocks, s.ec)
  {
    hide DataColumn, EcColumns;
    Maxima(blocks, s.d, s.c1, s.ec);
    DataColumnsLen(blocks, s.d);
    LastDataColumn(blocks, s.d, s.c1);
    EcColumnsLen(blocks, s.ec);
    if s.c2 == 0 {
      assert DataColumn(blocks, s.d) == [];
    }
  }

  /** Every symbol goes where the reader looks for it. */
  lemma InterleavedAt(blocks: seq<Block>, s: Shape, i: nat, j: nat)
    requires HasShape(blocks, s) && s.c1 >= 1 && i < s.Count() && j < s.DataLen(i) + s.ec
    ensures |Interleave(blocks)| == s.Total() && s.Position(i, j) < s.Total()
    ensures Interleave(blocks)[s.Position(i, j)] == (blocks[i].data + blocks[i].ec)[j]
  {
    hide Interleave, DataColumns, EcColumns, DataColumn, Rows;
    InterleaveParts(blocks, s);
    PositionInside(s, i, j);
    if j < s.d {
      DataColumnsAt(blocks, s.d, j, i);
    } else if j < s.DataLen(i) {
      LastDataColumn(blocks, s.d, s.c1);
    } else {
      EcColumnsAt(blocks, s.ec, j - s.DataLen(i), i);
    }
  }

  /** The reader recovers every block. */
  lemma BlockRoundTrip(blocks: seq<Block>, s: Shape)
    requires HasShape(blocks, s) && s.c1 >= 1
    ensures |Interleave(blocks)| == s.Total()
    ensures Deinterleave(Interleave(blocks), s)
            == seq<seq<Byte>>(|blocks|, i requires 0 <= i < |blocks| => blocks[i].data + blocks[i].ec)
  {
    hide Interleave;
    InterleaveParts(blocks, s);
    forall i | 0 <= i < |blocks|
      ensures BlockRead(Interleave(blocks), s, i) == blocks[i].data + blocks[i].ec
    {
      forall j | 0 <= j < s.DataLen(i) + s.ec
        ensures BlockRead(Interleave(blocks), s, i)[j] == (blocks[i].data + blocks[i].ec)[j]
      {
        InterleavedAt(blocks, s, i, j);
      }
    }
  }

  // ---- Every byte is moved exactly once

  /** The block and index whose symbol stands at position p. */
  function Owner(s: Shape, p: nat): (nat, nat)
    requires s.c1 >= 1
  {
    var n := s.Count();
    var r := Rows(s.d, n);
    if p < r then Slot(p, n)
    else if p < r + s.c2 then (s.c1 + (p - r), s.d)
    else
      var (i, k) := Slot(p - (r + s.c2), n);
      (i, s.DataLen(i) + k)
  }

  lemma OwnerPosition(s: Shape, p: nat)
    requires s.c1 >= 1 && p < s.Total()
    ensures var (i, j) := Owner(s, p);
            i < s.Count() && j < s.DataLen(i) + s.ec && s.Position(i, j) == p
  {
    hide Rows, Slot;
    var n := s.Count();
    var r := Rows(s.d, n);
    if p < r {
      SlotAt(p, n, s.d);
    } else if p >= r + s.c2 {
      SlotAt(p - (r + s.c2), n, s.ec);
      var (i, k) := Slot(p - (r + s.c2), n);
      assert s.DataLen(i) + k - s.DataLen(i) == k;
    }
  }

  lemma PositionOwner(s: Shape, i: nat, j: nat)
    requires s.c1 >= 1 && i < s.Count() && j < s.DataLen(i) + s.ec
    ensures Owner(s, s.Position(i, j)) == (i, j)
  {
    hide Rows, Slot;
    var n := s.Count();
    if j < s.d {
      SlotInside(n, s.d, j, i);
      SlotOf(j, n, i);
    } else if j >= s.DataLen(i) {
      SlotOf(j - s.DataLen(i), n, i);
    }
  }

  /** The blocks read from any codewords, written again, are those codewords. */
  lemma DeinterleaveInterleave(cw: seq<Byte>, s: Shape, blocks: seq<Block>)
    requires s.c1 >= 1 && |cw| == s.Total() && HasShape(blocks, s)
    requires forall i :: 0 <= i < |blocks| ==> blocks[i].data + blocks[i].ec == Deinterleave(cw, s)[i]
    ensures Interleave(blocks) == cw
  {
    hide Interleave, Owner;
    InterleaveParts(blocks, s);
    forall p | 0 <= p < |cw| ensures Interleave(blocks)[p] == cw[p] {
      var (i, j) := Owner(s, p);
      OwnerPosition(s, p);
      InterleavedAt(blocks, s, i, j);
      assert Deinterleave(cw, s)[i][j] == cw[s.Position(i, j)];
    }
  }
}
