/** The writer's blocks: how the data bytes are split, protected and interleaved. */
module BlockEncoding {
  import opened BitArrays
  import opened BitStrings
  import opened BlockCoding
  import opened Blocks
  import opened GaloisField
  import opened GenericField
  import opened Layout
  import opened Options
  import opened ReedSolomonCode
  import opened ReedSolomonEncoding

  /** n blocks for the given numbers of codewords and of data bytes: the last ones, as many as
      the division of the codewords leaves over, are one byte longer. */
  function Split(total: nat, data: nat, n: nat): Shape
    requires n > 0 && data <= total
  {
    DivisionGrows(data, total, n);
    Shape(n - total % n, total % n, data / n, total / n - data / n)
  }

  lemma DivisionGrows(a: nat, b: nat, n: nat)
    requires n > 0 && a <= b
    ensures a / n <= b / n && b % n < n
  {
    if a / n > b / n {
      assert a / n >= b / n + 1;
      Product(a / n, b / n + 1, n);
    }
  }

  lemma Product(x: nat, y: nat, n: nat)
    requires x >= y
    ensures x * n >= y * n
  {
  }

  /** The whole numbers add up, and the data bytes do just when both divisions leave the same. */
  lemma SplitSums(total: nat, data: nat, n: nat)
    requires n > 0 && data <= total
    ensures var s := Split(total, data, n);
            && s.Count() == n && s.c1 >= 1 && s.Total() == total
            && (s.TotalData() == data <==> total % n == data % n)
  {
    hide Rows;
    var s := Split(total, data, n);
    RowsIsProduct(s.d, n);
    RowsIsProduct(s.ec, n);
    var q, p := total / n, data / n;
    assert total == q * n + total % n && data == p * n + data % n;
    assert (q - p) * n == q * n - p * n;
  }

  /** The data and check bytes of one block.  The program throws for a block that does not
      exist, and never because the two kinds of blocks or the sums do not match. */
  method GetNumDataBytesAndNumEcBytesForBlockId(total: nat, data: nat, n: nat, id: nat) returns (r: Option<(nat, nat)>)
    requires n > 0 && data <= total
    ensures r.Some? <==> id < n
    ensures r.Some? ==> r.value.0 == Split(total, data, n).DataLen(id) && r.value.1 == Split(total, data, n).ec
  {
    if id >= n {
      return None;
    }
    DivisionGrows(data, total, n);
    var numRsBlocksInGroup2 := total % n;
    var numRsBlocksInGroup1 := n - numRsBlocksInGroup2;
    var numTotalBytesInGroup1 := total / n;
    var numTotalBytesInGroup2 := numTotalBytesInGroup1 + 1;
    var numDataBytesInGroup1 := data / n;
    var numDataBytesInGroup2 := numDataBytesInGroup1 + 1;
    var numEcBytesInGroup1 := numTotalBytesInGroup1 - numDataBytesInGroup1;
    var numEcBytesInGroup2 := numTotalBytesInGroup2 - numDataBytesInGroup2;
    if numEcBytesInGroup1 != numEcBytesInGroup2 {
      return None;
    }
    if n != numRsBlocksInGroup1 + numRsBlocksInGroup2 {
      return None;
    }
    GroupsAddUp(total, n);
    if total != (numDataBytesInGroup1 + numEcBytesInGroup1) * numRsBlocksInGroup1
                + (numDataBytesInGroup2 + numEcBytesInGroup2) * numRsBlocksInGroup2 {
      return None;
    }
    if id < numRsBlocksInGroup1 {
      return Some((numDataBytesInGroup1, numEcBytesInGroup1));
    } else {
      return Some((numDataBytesInGroup2, numEcBytesInGroup2));
    }
  }

  lemma GroupsAddUp(total: nat, n: nat)
    requires n > 0
    ensures total == (total / n) * (n - total % n) + (total / n + 1) * (total % n)
  {
    var q, r := total / n, total % n;
    assert q * (n - r) + (q + 1) * r == q * n + r;
  }

  /** The check bytes of one block, through an encoder of its own. */
  method GenerateEcBytes(field: GenericGF, dataBytes: seq<Byte>, numEcBytes: nat) returns (ec: seq<Byte>)
    requires field.Valid() && field.generatorBase == 0 && dataBytes != [] && 0 < numEcBytes <= 256
    ensures ec == CheckSymbols(field.F, 0, dataBytes, numEcBytes)
  {
    hide CheckSymbols, IsField;
    var numDataBytes := |dataBytes|;
    var toEncode := new Elem[numDataBytes + numEcBytes](i => 0);
    for i := 0 to numDataBytes
      invariant toEncode[..i] == dataBytes[..i]
    {
      toEncode[i] := dataBytes[i];
    }
    assert toEncode[..numDataBytes] == dataBytes;
    var encoder := new ReedSolomonEncoder(field);
    var ok := encoder.Encode(toEncode, numEcBytes);
    ec := toEncode[numDataBytes..];
  }

  /** The bytes of the bits, the last one filled up with zeros. */
  function PaddedBytes(b: seq<bool>): (r: seq<Byte>)
    ensures |r| == (|b| + 7) / 8
  {
    seq((|b| + 7) / 8, (k: nat) => ByteAt(b, 8 * k))
  }

  lemma PaddedIsGroup(b: seq<bool>)
    requires |b| % 8 == 0
    ensures PaddedBytes(b) == Group(b)
  {
    hide Group, ByteAt;
    forall k | 0 <= k < |b| / 8 ensures PaddedBytes(b)[k] == Group(b)[k] {
      ByteInGroup(b, k);
    }
  }

  /** The data and check bytes of block i, its data starting at the given byte. */
  method MakeBlock(field: GenericGF, bits: BitArray, offset: nat, numDataBytes: nat, numEcBytes: nat) returns (b: Block)
    requires field.Valid() && field.generatorBase == 0 && bits.Valid() && 0 < numDataBytes && 0 < numEcBytes <= 256
    ensures |b.data| == numDataBytes && |b.ec| == numEcBytes
    ensures b.ec == CheckSymbols(field.F, 0, b.data, numEcBytes)
    ensures offset + numDataBytes <= |PaddedBytes(bits.contents)| ==>
              b.data == PaddedBytes(bits.contents)[offset..offset + numDataBytes]
  {
    hide CheckSymbols, IsField, Holds, ByteAt;
    var dataBytes := new Byte[numDataBytes](i => 0);
    bits.ToBytes(8 * offset, dataBytes, 0, numDataBytes);
    var ecBytes := GenerateEcBytes(field, dataBytes[..], numEcBytes);
    if offset + numDataBytes <= |PaddedBytes(bits.contents)| {
      forall k | 0 <= k < numDataBytes ensures dataBytes[k] == PaddedBytes(bits.contents)[offset + k] {
        assert dataBytes[0 + k] == ByteAt(bits.contents, 8 * offset + 8 * k);
        assert 8 * offset + 8 * k == 8 * (offset + k);
      }
    }
    b := Block(dataBytes[..], ecBytes);
  }

  /** The blocks made so far are those of the data. */
  ghost predicate Made(F: Field, data: seq<Byte>, s: Shape, blocks: seq<Block>)
    requires IsField(F)
  {
    && |blocks| <= s.Count()
    && (forall k :: 0 <= k < |blocks| ==> |blocks[k].data| == s.DataLen(k) && |blocks[k].ec| == s.ec)
    && (|data| == s.TotalData() ==> forall k :: 0 <= k < |blocks| ==> blocks[k] == BlockOf(F, data, s, k))
  }

  lemma MadeOneMore(F: Field, data: seq<Byte>, s: Shape, blocks: seq<Block>, b: Block)
    requires IsField(F) && Made(F, data, s, blocks) && |blocks| < s.Count()
    requires |b.data| == s.DataLen(|blocks|) && |b.ec| == s.ec && b.ec == CheckSymbols(F, 0, b.data, s.ec)
    requires s.Offset(|blocks|) + s.DataLen(|blocks|) <= |data| ==>
               b.data == data[s.Offset(|blocks|)..s.Offset(|blocks|) + s.DataLen(|blocks|)]
    ensures Made(F, data, s, blocks + [b])
  {
    hide IsField, CheckSymbols, Rows;
    if |data| == s.TotalData() {
      SliceInside(s, |blocks|);
      assert b == BlockOf(F, data, s, |blocks|);
    }
  }

  lemma MadeAll(F: Field, data: seq<Byte>, s: Shape, blocks: seq<Block>)
    requires IsField(F) && Made(F, data, s, blocks) && |blocks| == s.Count()
    ensures HasShape(blocks, s)
    ensures |data| == s.TotalData() ==> blocks == BlocksFor(F, data, s)
  {
    hide IsField, BlockOf;
  }

  /** What block i adds to a column, as bits. */
  lemma DataColumnStep(blocks: seq<Block>, i: nat, j: nat)
    requires i < |blocks|
    ensures Flatten(DataColumn(blocks[..i + 1], j))
            == Flatten(DataColumn(blocks[..i], j)) + if j < |blocks[i].data| then NumBits(blocks[i].data[j], 8) else []
  {
    hide Flatten, NumBits;
    assert blocks[..i + 1][..i] == blocks[..i];
    var column := DataColumn(blocks[..i], j);
    if j < |blocks[i].data| {
      FlattenOne(column, blocks[i].data[j]);
    } else {
      assert column + [] == column;
    }
  }

  method AppendDataColumn(result: BitArray, blocks: seq<Block>, j: nat)
    requires result.Valid()
    modifies result, result.bits
    ensures result.Valid() && result.contents == old(result.contents) + Flatten(DataColumn(blocks, j))
    ensures result.bits == old(result.bits) || fresh(result.bits)
  {
    hide Holds, NumBits, Flatten, DataColumn;
    ghost var before := result.contents;
    NoDataColumn(blocks, j);
    for i := 0 to |blocks|
      invariant result.Valid() && (result.bits == old(result.bits) || fresh(result.bits))
      invariant result.contents == before + Flatten(DataColumn(blocks[..i], j))
    {
      DataColumnStep(blocks, i, j);
      ghost var column := Flatten(DataColumn(blocks[..i], j));
      if j < |blocks[i].data| {
        var ok := result.AppendBits(blocks[i].data[j], 8);
        assert before + column + NumBits(blocks[i].data[j], 8) == before + (column + NumBits(blocks[i].data[j], 8));
      }
    }
    assert blocks[..|blocks|] == blocks;
  }

  lemma NoDataColumn(blocks: seq<Block>, j: nat)
    ensures Flatten(DataColumn(blocks[..0], j)) == []
  {
  }

  lemma FlattenOne(bytes: seq<Byte>, b: Byte)
    ensures Flatten(bytes + [b]) == Flatten(bytes) + NumBits(b, 8)
  {
    assert (bytes + [b])[..|bytes|] == bytes;
  }

  /** What block i adds to a column, as bits. */
  lemma EcColumnStep(blocks: seq<Block>, i: nat, j: nat)
    requires i < |blocks|
    ensures Flatten(EcColumn(blocks[..i + 1], j))
            == Flatten(EcColumn(blocks[..i], j)) + if j < |blocks[i].ec| then NumBits(blocks[i].ec[j], 8) else []
  {
    hide Flatten, NumBits;
    assert blocks[..i + 1][..i] == blocks[..i];
    var column := EcColumn(blocks[..i], j);
    if j < |blocks[i].ec| {
      FlattenOne(column, blocks[i].ec[j]);
    } else {
      assert column + [] == column;
    }
  }

  method AppendEcColumn(result: BitArray, blocks: seq<Block>, j: nat)
    requires result.Valid()
    modifies result, result.bits
    ensures result.Valid() && result.contents == old(result.contents) + Flatten(EcColumn(blocks, j))
    ensures result.bits == old(result.bits) || fresh(result.bits)
  {
    hide Holds, NumBits, Flatten, EcColumn;
    ghost var before := result.contents;
    NoEcColumn(blocks, j);
    for i := 0 to |blocks|
      invariant result.Valid() && (result.bits == old(result.bits) || fresh(result.bits))
      invariant result.contents == before + Flatten(EcColumn(blocks[..i], j))
    {
      EcColumnStep(blocks, i, j);
      ghost var column := Flatten(EcColumn(blocks[..i], j));
      if j < |blocks[i].ec| {
        var ok := result.AppendBits(blocks[i].ec[j], 8);
        assert before + column + NumBits(blocks[i].ec[j], 8) == before + (column + NumBits(blocks[i].ec[j], 8));
      }
    }
    assert blocks[..|blocks|] == blocks;
  }

  lemma NoEcColumn(blocks: seq<Block>, j: nat)
    ensures Flatten(EcColumn(blocks[..0], j)) == []
  {
  }

  /** All columns of data bytes, then all columns of check bytes. */
  method WriteColumns(blocks: seq<Block>, maxData: nat, maxEc: nat) returns (result: BitArray)
    requires maxData == MaxData(blocks) && maxEc == MaxEc(blocks)
    ensures fresh(result) && fresh(result.bits) && result.Valid() && result.contents == Flatten(Interleave(blocks))
  {
    hide Holds, Flatten, MaxData, MaxEc, DataColumn, EcColumn;
    result := new BitArray();
    FlattenNone();
    for j := 0 to maxData
      invariant fresh(result) && fresh(result.bits) && result.Valid()
      invariant result.contents == Flatten(DataColumns(blocks, j))
    {
      FlattenAppend(DataColumns(blocks, j), DataColumn(blocks, j));
      AppendDataColumn(result, blocks, j);
    }
    ghost var data := DataColumns(blocks, maxData);
    assert data + EcColumns(blocks, 0) == data;
    for j := 0 to maxEc
      invariant fresh(result) && fresh(result.bits) && result.Valid()
      invariant result.contents == Flatten(data + EcColumns(blocks, j))
    {
      assert data + EcColumns(blocks, j + 1) == data + EcColumns(blocks, j) + EcColumn(blocks, j);
      FlattenAppend(data + EcColumns(blocks, j), EcColumn(blocks, j));
      AppendEcColumn(result, blocks, j);
    }
  }

  lemma FlattenNone()
    ensures Flatten([]) == []
  {
  }

  /** Blocks, check bytes, columns.  The program throws when the bits are not as many bytes as
      announced, and when these do not fill the blocks because the two divisions leave different
      rests; the final size never fails. */
  method InterleaveWithEcBytes(field: GenericGF, bits: BitArray, numTotalBytes: nat, numDataBytes: nat, numRsBlocks: nat)
    returns (result: BitArray?)
    requires field.Valid() && field.generatorBase == 0 && bits.Valid()
    requires 0 < numRsBlocks <= numDataBytes <= numTotalBytes
    requires 0 < Split(numTotalBytes, numDataBytes, numRsBlocks).ec <= 256
    ensures result != null <==>
              |PaddedBytes(bits.contents)| == numDataBytes && numTotalBytes % numRsBlocks == numDataBytes % numRsBlocks
    ensures result != null ==>
              var s := Split(numTotalBytes, numDataBytes, numRsBlocks);
              && fresh(result) && fresh(result.bits) && result.Valid()
              && |PaddedBytes(bits.contents)| == s.TotalData()
              && result.contents == Flatten(Codewords(field.F, PaddedBytes(bits.contents), s))
  {
    hide Holds, Flatten, IsField, CheckSymbols, Interleave, Made, Rows, MaxData, MaxEc;
    if (bits.size + 7) / 8 != numDataBytes {
      return null;
    }
    ghost var s, data := Split(numTotalBytes, numDataBytes, numRsBlocks), PaddedBytes(bits.contents);
    hide PaddedBytes;
    SplitSums(numTotalBytes, numDataBytes, numRsBlocks);
    SplitData(numTotalBytes, numDataBytes, numRsBlocks);
    OffsetEnd(s);
    var dataBytesOffset, maxNumDataBytes, maxNumEcBytes := 0, 0, 0;
    var blocks: seq<Block> := [];
    MadeNone(field.F, data, s);
    for i := 0 to numRsBlocks
      invariant |blocks| == i && Made(field.F, data, s, blocks)
      invariant dataBytesOffset == s.Offset(i)
      invariant maxNumDataBytes == MaxData(blocks) && maxNumEcBytes == MaxEc(blocks)
    {
      var sizes := GetNumDataBytesAndNumEcBytesForBlockId(numTotalBytes, numDataBytes, numRsBlocks, i);
      var b := MakeBlock(field, bits, dataBytesOffset, sizes.value.0, sizes.value.1);
      MadeOneMore(field.F, data, s, blocks, b);
      MaximaStep(blocks, b);
      OffsetStep(s, i);
      blocks := blocks + [b];
      maxNumDataBytes := if maxNumDataBytes < |b.data| then |b.data| else maxNumDataBytes;
      maxNumEcBytes := if maxNumEcBytes < |b.ec| then |b.ec| else maxNumEcBytes;
      dataBytesOffset := dataBytesOffset + |b.data|;
    }
    if numDataBytes != dataBytesOffset {
      return null;
    }
    MadeAll(field.F, data, s, blocks);
    var r := WriteColumns(blocks, maxNumDataBytes, maxNumEcBytes);
    InterleaveParts(blocks, s);
    if numTotalBytes != (r.size + 7) / 8 {
      return null;
    }
    result := r;
  }

  lemma SplitData(total: nat, data: nat, n: nat)
    requires 0 < n <= data <= total
    ensures Split(total, data, n).d >= 1
  {
    DivisionGrows(n, data, n);
    assert n / n == 1;
  }

  lemma MadeNone(F: Field, data: seq<Byte>, s: Shape)
    requires IsField(F)
    ensures Made(F, data, s, []) && MaxData([]) == 0 && MaxEc([]) == 0
  {
  }

  lemma MaximaStep(blocks: seq<Block>, b: Block)
    ensures MaxData(blocks + [b]) == if MaxData(blocks) < |b.data| then |b.data| else MaxData(blocks)
    ensures MaxEc(blocks + [b]) == if MaxEc(blocks) < |b.ec| then |b.ec| else MaxEc(blocks)
  {
    assert (blocks + [b])[..|blocks|] == blocks;
  }
}
