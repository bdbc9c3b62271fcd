/** Data bytes to codewords and back: blocks, check symbols, interleaving, and the repair of
    every block (sections 7.5 and 7.6 of ISO/IEC 18004:2015). */
module BlockCoding {
  import opened BitStrings
  import opened Blocks
  import opened ErrorCorrection
  import opened GaloisField
  import opened Layout
  import opened Options
  import opened ReedSolomonCode
  import opened SystematicCode

  // ---- Where the data of a block lie

  lemma OffsetStep(s: Shape, i: nat)
    ensures s.Offset(i + 1) == s.Offset(i) + s.DataLen(i)
  {
  }

  lemma OffsetEnd(s: Shape)
    ensures s.Offset(0) == 0 && s.Offset(s.Count()) == s.TotalData()
  {
    hide Rows;
    RowsIsProduct(s.Count(), s.d);
    RowsIsProduct(s.d, s.Count());
    RowsIsProduct(0, s.d);
    assert s.Count() * s.d == s.d * s.Count();
  }

  lemma {:induction false} OffsetGrows(s: Shape, i: nat, n: nat)
    requires i <= n
    ensures s.Offset(i) <= s.Offset(n)
    decreases n
  {
    if i < n {
      OffsetGrows(s, i, n - 1);
      OffsetStep(s, n - 1);
    }
  }

  lemma SliceInside(s: Shape, i: nat)
    requires i < s.Count()
    ensures s.Offset(i) + s.DataLen(i) <= s.TotalData()
  {
    OffsetStep(s, i);
    OffsetGrows(s, i + 1, s.Count());
    OffsetEnd(s);
  }

  /** The data of block i. */
  function Slice(data: seq<Byte>, s: Shape, i: nat): (r: seq<Byte>)
    requires |data| == s.TotalData() && i < s.Count()
    ensures |r| == s.DataLen(i)
  {
    SliceInside(s, i);
    data[s.Offset(i)..s.Offset(i) + s.DataLen(i)]
  }

  // ---- Writing

  function BlockOf(F: Field, data: seq<Byte>, s: Shape, i: nat): (b: Block)
    requires IsField(F) && |data| == s.TotalData() && i < s.Count()
    ensures |b.data| == s.DataLen(i) && |b.ec| == s.ec
  {
    Block(Slice(data, s, i), CheckSymbols(F, 0, Slice(data, s, i), s.ec))
  }

  function BlocksFor(F: Field, data: seq<Byte>, s: Shape): (r: seq<Block>)
    requires IsField(F) && |data| == s.TotalData()
    ensures HasShape(r, s)
  {
    seq<Block>(s.Count(), i requires 0 <= i < s.Count() => BlockOf(F, data, s, i))
  }

  /** The codewords of the data. */
  function Codewords(F: Field, data: seq<Byte>, s: Shape): seq<Byte>
    requires IsField(F) && |data| == s.TotalData()
  {
    Interleave(BlocksFor(F, data, s))
  }

  // ---- Reading

  /** The repaired data of the first n blocks, unless one of them is beyond repair. */
  function DataOf(F: Field, cw: seq<Byte>, s: Shape, n: nat): Option<seq<Byte>>
    requires IsField(F) && |cw| == s.Total() && n <= s.Count()
    decreases n
  {
    if n == 0 then Some([]) else
    var before := DataOf(F, cw, s, n - 1);
    if before.None? then None else
    var r := Decode(F, 0, BlockRead(cw, s, n - 1), s.ec);
    if !r.ok then None else Some(before.value + r.word[..s.DataLen(n - 1)])
  }

  /** No block has more wrong codewords than its check symbols can place. */
  ghost predicate Repairable(F: Field, cw: seq<Byte>, data: seq<Byte>, s: Shape)
    requires IsField(F) && |cw| == s.Total() && |data| == s.TotalData()
  {
    forall i :: 0 <= i < s.Count() ==>
      var b := BlockOf(F, data, s, i);
      |Differing(BlockRead(cw, s, i), b.data + b.ec)| <= s.ec / 2
  }

  /** One block is repaired. */
  lemma BlockRestored(F: Field, cw: seq<Byte>, data: seq<Byte>, s: Shape, i: nat)
    requires IsField(F) && |cw| == s.Total() && |data| == s.TotalData() && i < s.Count()
    requires s.d + 1 + s.ec <= 255 && Repairable(F, cw, data, s)
    ensures Decode(F, 0, BlockRead(cw, s, i), s.ec) == Outcome(true, Slice(data, s, i) + BlockOf(F, data, s, i).ec)
  {
    hide IsField, Decode, CheckSymbols, Slice, BlockRead;
    var b := BlockOf(F, data, s, i);
    EncodedIsCodeword(F, 0, b.data, s.ec);
    DecodeRestores(F, 0, BlockRead(cw, s, i), b.data + b.ec, s.ec);
  }

  /** The repaired blocks put together are the data up to there. */
  lemma {:induction false} DataRestored(F: Field, cw: seq<Byte>, data: seq<Byte>, s: Shape, n: nat)
    requires IsField(F) && |cw| == s.Total() && |data| == s.TotalData() && n <= s.Count()
    requires s.d + 1 + s.ec <= 255 && Repairable(F, cw, data, s)
    ensures s.Offset(n) <= |data| && DataOf(F, cw, s, n) == Some(data[..s.Offset(n)])
    decreases n
  {
    hide IsField, Decode, BlockRead, Repairable, BlockOf, Rows;
    if n == 0 {
      OffsetEnd(s);
    } else {
      DataRestored(F, cw, data, s, n - 1);
      BlockRestored(F, cw, data, s, n - 1);
      SliceInside(s, n - 1);
      OffsetStep(s, n - 1);
      var r := Decode(F, 0, BlockRead(cw, s, n - 1), s.ec);
      assert r.word[..s.DataLen(n - 1)] == Slice(data, s, n - 1);
      assert data[..s.Offset(n)] == data[..s.Offset(n - 1)] + Slice(data, s, n - 1);
    }
  }

  /** Data bytes survive interleaving and damage within the power of the code. */
  lemma DataSurvives(F: Field, cw: seq<Byte>, data: seq<Byte>, s: Shape)
    requires IsField(F) && |cw| == s.Total() && |data| == s.TotalData()
    requires s.d + 1 + s.ec <= 255 && Repairable(F, cw, data, s)
    ensures DataOf(F, cw, s, s.Count()) == Some(data)
  {
    hide IsField, Repairable, Rows;
    DataRestored(F, cw, data, s, s.Count());
    OffsetEnd(s);
    assert data[..|data|] == data;
  }

  // ---- Damage counted over the whole symbol

  /** Where two byte strings differ. */
  function Damaged(x: seq<Byte>, y: seq<Byte>): set<nat>
    requires |x| == |y|
  {
    set p: nat | p < |x| && x[p] != y[p]
  }

  lemma Image(a: set<nat>, b: set<nat>, f: nat -> nat)
    requires forall x :: x in a ==> f(x) in b
    requires forall x, y :: x in a && y in a && f(x) == f(y) ==> x == y
    ensures |a| <= |b|
    decreases |a|
  {
    if x :| x in a {
      Image(a - {x}, b - {f(x)}, f);
    }
  }

  /** A block has at most as many wrong symbols as there are wrong codewords. */
  lemma DamageOfBlock(F: Field, cw: seq<Byte>, data: seq<Byte>, s: Shape, i: nat)
    requires IsField(F) && |cw| == s.Total() && |data| == s.TotalData() && s.c1 >= 1 && i < s.Count()
    ensures |Codewords(F, data, s)| == |cw|
    ensures var b := BlockOf(F, data, s, i);
            |Differing(BlockRead(cw, s, i), b.data + b.ec)| <= |Damaged(cw, Codewords(F, data, s))|
  {
    hide IsField, CheckSymbols, Interleave, Slice, Rows;
    var b := BlockOf(F, data, s, i);
    var blocks := BlocksFor(F, data, s);
    InterleaveParts(blocks, s);
    var x := Codewords(F, data, s);
    var wrong := Differing(BlockRead(cw, s, i), b.data + b.ec);
    var f := (j: nat) => if j < s.DataLen(i) + s.ec then s.Position(i, j) else 0;
    forall j | j in wrong ensures f(j) in Damaged(cw, x) {
      InterleavedAt(blocks, s, i, j);
    }
    forall j, k | j in wrong && k in wrong && f(j) == f(k) ensures j == k {
      PositionOwner(s, i, j);
      PositionOwner(s, i, k);
    }
    Image(wrong, Damaged(cw, x), f);
  }

  /** Wherever the damage is, up to half the check symbols of one block are always repaired. */
  lemma FewDamagedRepairable(F: Field, cw: seq<Byte>, data: seq<Byte>, s: Shape)
    requires IsField(F) && |cw| == s.Total() && |data| == s.TotalData() && s.c1 >= 1
    requires |Codewords(F, data, s)| == |cw| && |Damaged(cw, Codewords(F, data, s))| <= s.ec / 2
    ensures Repairable(F, cw, data, s)
  {
    hide IsField, Codewords, BlockOf, BlockRead, Differing, Damaged;
    forall i | 0 <= i < s.Count()
      ensures var b := BlockOf(F, data, s, i);
              |Differing(BlockRead(cw, s, i), b.data + b.ec)| <= s.ec / 2
    {
      DamageOfBlock(F, cw, data, s, i);
    }
  }
}
