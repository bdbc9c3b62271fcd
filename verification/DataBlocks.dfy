/** The reader's loops that put interleaved codewords back into blocks. */
module DataBlocks {
  import opened BitStrings
  import opened Blocks
  import opened Layout

  /** Every symbol whose place comes before position p is where it belongs. */
  ghost predicate Filled(r: seq<seq<Byte>>, cw: seq<Byte>, s: Shape, p: nat)
    requires |cw| == s.Total()
  {
    && |r| == s.Count()
    && (forall i :: 0 <= i < |r| ==> |r[i]| == s.DataLen(i) + s.ec)
    && (forall i, j :: 0 <= i < |r| && 0 <= j < |r[i]| && s.Position(i, j) < p ==>
          s.Position(i, j) < |cw| && r[i][j] == cw[s.Position(i, j)])
  }

  /** Symbol j of block i is the next one. */
  lemma FillNext(r: seq<seq<Byte>>, cw: seq<Byte>, s: Shape, p: nat, i: nat, j: nat)
    requires |cw| == s.Total() && s.c1 >= 1 && Filled(r, cw, s, p)
    requires i < s.Count() && j < s.DataLen(i) + s.ec && s.Position(i, j) == p
    ensures p < |cw| && Filled(r[i := r[i][j := cw[p]]], cw, s, p + 1)
  {
    PositionInside(s, i, j);
    var r' := r[i := r[i][j := cw[p]]];
    forall k, l | 0 <= k < |r'| && 0 <= l < |r'[k]| && s.Position(k, l) < p + 1
      ensures s.Position(k, l) < |cw| && r'[k][l] == cw[s.Position(k, l)]
    {
      if s.Position(k, l) == p {
        PositionOwner(s, k, l);
        PositionOwner(s, i, j);
      } else {
        assert s.Position(k, l) < p;
      }
    }
  }

  lemma FilledAll(r: seq<seq<Byte>>, cw: seq<Byte>, s: Shape)
    requires |cw| == s.Total() && Filled(r, cw, s, s.Total())
    ensures r == Deinterleave(cw, s)
  {
    forall i | 0 <= i < |r| ensures r[i] == BlockRead(cw, s, i) {
      forall j | 0 <= j < |r[i]| ensures r[i][j] == BlockRead(cw, s, i)[j] {
        PositionInside(s, i, j);
      }
    }
  }

  /** The blocks of a version, filled column by column: the bytes every block has, the last data
      byte of the longer blocks, the check bytes. */
  method GetDataBlocks(rawCodewords: seq<Byte>, s: Shape) returns (result: seq<seq<Byte>>)
    requires |rawCodewords| == s.Total() && s.c1 >= 1
    ensures result == Deinterleave(rawCodewords, s)
  {
    hide Filled, Rows, Deinterleave;
    var totalBlocks := s.Count();
    result := EmptyBlocks(s);
    FilledNone(result, rawCodewords, s);
    var shorter := |result[0]|;
    var longerBlocksStartAt := FirstLonger(result, s);
    var shorterData := shorter - s.ec;
    var p := 0;
    RowZero(totalBlocks);
    for y := 0 to shorterData
      invariant Filled(result, rawCodewords, s, p) && p == Rows(y, totalBlocks)
    {
      for i := 0 to totalBlocks
        invariant Filled(result, rawCodewords, s, p) && p == Rows(y, totalBlocks) + i
      {
        FillNext(result, rawCodewords, s, p, i, y);
        FilledLen(result, rawCodewords, s, p);
        result := result[i := result[i][y := rawCodewords[p]]];
        p := p + 1;
      }
      RowNext(y, totalBlocks);
    }
    for i := longerBlocksStartAt to totalBlocks
      invariant Filled(result, rawCodewords, s, p) && p == Rows(s.d, totalBlocks) + (i - s.c1)
    {
      FillNext(result, rawCodewords, s, p, i, s.d);
      FilledLen(result, rawCodewords, s, p);
      result := result[i := result[i][shorterData := rawCodewords[p]]];
      p := p + 1;
    }
    var max := shorter;
    for y := shorterData to max
      invariant Filled(result, rawCodewords, s, p) && p == Rows(s.d, totalBlocks) + s.c2 + Rows(y - s.d, totalBlocks)
    {
      for i := 0 to totalBlocks
        invariant Filled(result, rawCodewords, s, p)
        invariant p == Rows(s.d, totalBlocks) + s.c2 + Rows(y - s.d, totalBlocks) + i
      {
        var offset := if i < longerBlocksStartAt then y else y + 1;
        assert offset - s.DataLen(i) == y - s.d;
        FillNext(result, rawCodewords, s, p, i, offset);
        FilledLen(result, rawCodewords, s, p);
        result := result[i := result[i][offset := rawCodewords[p]]];
        p := p + 1;
      }
      RowNext(y - s.d, totalBlocks);
    }
    FilledAll(result, rawCodewords, s);
  }

  /** Blocks of the right sizes, zeros throughout. */
  method EmptyBlocks(s: Shape) returns (r: seq<seq<Byte>>)
    ensures |r| == s.Count() && forall i :: 0 <= i < |r| ==> |r[i]| == s.DataLen(i) + s.ec
  {
    r := [];
    for i := 0 to s.Count()
      invariant |r| == i && forall k :: 0 <= k < i ==> |r[k]| == s.DataLen(k) + s.ec
    {
      r := r + [Repeat(0, s.DataLen(i) + s.ec)];
    }
  }

  /** From the end backwards past the blocks that are longer than the first. */
  method FirstLonger(r: seq<seq<Byte>>, s: Shape) returns (n: nat)
    requires s.c1 >= 1 && |r| == s.Count() && forall i :: 0 <= i < |r| ==> |r[i]| == s.DataLen(i) + s.ec
    ensures n == s.c1
  {
    var i: int := |r| - 1;
    while i >= 0 && |r[i]| != |r[0]|
      invariant s.c1 - 1 <= i < |r|
    {
      i := i - 1;
    }
    n := i + 1;
  }

  lemma FilledNone(r: seq<seq<Byte>>, cw: seq<Byte>, s: Shape)
    requires |cw| == s.Total() && |r| == s.Count() && forall i :: 0 <= i < |r| ==> |r[i]| == s.DataLen(i) + s.ec
    ensures Filled(r, cw, s, 0)
  {
  }

  lemma FilledLen(r: seq<seq<Byte>>, cw: seq<Byte>, s: Shape, p: nat)
    requires |cw| == s.Total() && Filled(r, cw, s, p)
    ensures |r| == s.Count() && forall i :: 0 <= i < |r| ==> |r[i]| == s.DataLen(i) + s.ec
  {
  }

  lemma RowZero(n: nat)
    ensures Rows(0, n) == 0
  {
  }

  lemma RowNext(y: nat, n: nat)
    ensures Rows(y + 1, n) == Rows(y, n) + n
  {
  }
}
