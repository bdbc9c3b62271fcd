/** Numbers as bit strings, the highest bit first. */
module BitStrings {
  import opened GaloisField

  /** The lowest n bits of v. */
  function NumBits(v: nat, n: nat): (b: seq<bool>)
    ensures |b| == n
  {
    if n == 0 then [] else NumBits(v / 2, n - 1) + [v % 2 == 1]
  }

  function BitsNum(b: seq<bool>): nat {
    if b == [] then 0 else 2 * BitsNum(b[..|b| - 1]) + (if b[|b| - 1] then 1 else 0)
  }

  function Pow2(n: nat): (p: nat)
    ensures p > 0
  {
    if n == 0 then 1 else 2 * Pow2(n - 1)
  }

  lemma {:induction false} BitsNumBound(b: seq<bool>)
    ensures BitsNum(b) < Pow2(|b|)
    decreases |b|
  {
    if b != [] {
      BitsNumBound(b[..|b| - 1]);
    }
  }

  /** Reading back what was written, for numbers that fit. */
  lemma {:induction false} ReadWritten(v: nat, n: nat)
    requires v < Pow2(n)
    ensures BitsNum(NumBits(v, n)) == v
    decreases n
  {
    if n != 0 {
      ReadWritten(v / 2, n - 1);
      assert NumBits(v, n)[..n - 1] == NumBits(v / 2, n - 1);
    }
  }

  lemma {:induction false} WriteRead(b: seq<bool>)
    ensures NumBits(BitsNum(b), |b|) == b
    decreases |b|
  {
    if b != [] {
      WriteRead(b[..|b| - 1]);
    }
  }

  function Repeat<T>(x: T, n: nat): (s: seq<T>)
    ensures |s| == n && forall i :: 0 <= i < n ==> s[i] == x
  {
    seq(n, i => x)
  }

  // ---- Bytes

  type Byte = Elem

  /** The bits of all bytes in turn. */
  function Flatten(bytes: seq<Byte>): (b: seq<bool>)
    ensures |b| == 8 * |bytes|
  {
    if bytes == [] then [] else Flatten(bytes[..|bytes| - 1]) + NumBits(bytes[|bytes| - 1], 8)
  }

  function ByteOf(b: seq<bool>): Byte
    requires |b| == 8
  {
    BitsNumBound(b);
    assert Pow2(8) == 256;
    BitsNum(b)
  }

  /** Whole bytes, a trailing rest being dropped. */
  function Group(b: seq<bool>): (bytes: seq<Byte>)
    ensures |bytes| == |b| / 8
  {
    seq(|b| / 8, i requires 0 <= i < |b| / 8 => ByteOf(b[8 * i..8 * i + 8]))
  }

  lemma {:induction false} FlattenAt(bytes: seq<Byte>, i: nat)
    requires i < |bytes|
    ensures Flatten(bytes)[8 * i..8 * i + 8] == NumBits(bytes[i], 8)
    decreases |bytes|
  {
    var n := |bytes| - 1;
    if i < n {
      FlattenAt(bytes[..n], i);
      assert Flatten(bytes)[8 * i..8 * i + 8] == Flatten(bytes[..n])[8 * i..8 * i + 8];
    }
  }

  lemma ByteWritten(x: Byte)
    ensures ByteOf(NumBits(x, 8)) == x
  {
    assert Pow2(8) == 256;
    ReadWritten(x, 8);
  }

  /** Bytes written bit by bit and grouped again, whatever fewer than eight bits follow. */
  lemma GroupFlatten(bytes: seq<Byte>, rest: seq<bool>)
    requires |rest| < 8
    ensures Group(Flatten(bytes) + rest) == bytes
  {
    hide Flatten, ByteOf, NumBits;
    var b := Flatten(bytes) + rest;
    forall i | 0 <= i < |bytes| ensures Group(b)[i] == bytes[i] {
      assert b[8 * i..8 * i + 8] == Flatten(bytes)[8 * i..8 * i + 8];
      FlattenAt(bytes, i);
      ByteWritten(bytes[i]);
    }
  }

  lemma GroupLast(b: seq<bool>)
    requires |b| % 8 == 0 && b != []
    ensures var n := |b| - 8; Group(b) == Group(b[..n]) + [ByteOf(b[n..])]
  {
    hide ByteOf;
    var n := |b| - 8;
    var k := n / 8;
    assert 8 * k == n && |b| / 8 == k + 1;
    forall i | 0 <= i < k ensures Group(b)[i] == Group(b[..n])[i] {
      assert b[8 * i..8 * i + 8] == b[..n][8 * i..8 * i + 8];
    }
    assert Group(b)[k] == ByteOf(b[8 * k..8 * k + 8]);
    assert b[8 * k..8 * k + 8] == b[n..];
  }

  lemma {:induction false} FlattenGroup(b: seq<bool>)
    requires |b| % 8 == 0
    ensures Flatten(Group(b)) == b
    decreases |b|
  {
    hide Group, ByteOf;
    if b == [] {
    } else {
      var n := |b| - 8;
      FlattenGroup(b[..n]);
      GroupLast(b);
      assert Group(b)[..|Group(b)| - 1] == Group(b[..n]);
      ByteRead(b[n..]);
    }
  }

  lemma ByteRead(b: seq<bool>)
    requires |b| == 8
    ensures NumBits(ByteOf(b), 8) == b
  {
    WriteRead(b);
  }

  lemma {:induction false} FlattenAppend(a: seq<Byte>, b: seq<Byte>)
    ensures Flatten(a + b) == Flatten(a) + Flatten(b)
    decreases |b|
  {
    if b == [] {
      assert a + b == a;
    } else {
      var n := |b| - 1;
      FlattenAppend(a, b[..n]);
      assert (a + b)[..|a + b| - 1] == a + b[..n];
    }
  }
}
