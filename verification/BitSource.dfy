/** Reading numbers of any width out of a byte array, the highest bit first. */
module BitSources {
  import opened BitStrings
  import opened Options

  // ---- Numbers of consecutive bits

  lemma {:induction false} BitsNumJoin(a: seq<bool>, b: seq<bool>)
    ensures BitsNum(a + b) == BitsNum(a) * Pow2(|b|) + BitsNum(b)
    decreases |b|
  {
    if b == [] {
      assert a + b == a;
    } else {
      var n := |b| - 1;
      BitsNumJoin(a, b[..n]);
      assert (a + b)[..|a + b| - 1] == a + b[..n];
      Double(BitsNum(a), Pow2(n));
    }
  }

  lemma Double(x: nat, p: nat)
    ensures 2 * (x * p) == x * (2 * p)
  {
  }

  /** f bits of a byte, with u bits below them: what a mask and a shift leave. */
  function Extract(a: Byte, u: nat, f: nat): nat {
    a / Pow2(u) % Pow2(f)
  }

  lemma MiddleBits(b: seq<bool>, u: nat, f: nat)
    requires u + f <= |b|
    ensures BitsNum(b) / Pow2(u) % Pow2(f) == BitsNum(b[|b| - u - f..|b| - u])
  {
    hide BitsNum, Pow2;
    var n := |b|;
    var x, y, z := b[..n - u - f], b[n - u - f..n - u], b[n - u..];
    assert b == (x + y) + z;
    BitsNumJoin(x + y, z);
    BitsNumJoin(x, y);
    BitsNumBound(z);
    BitsNumBound(y);
    DivideOut(BitsNum(x + y), BitsNum(z), Pow2(u));
    DivideOut(BitsNum(x), BitsNum(y), Pow2(f));
  }

  lemma ExtractBits(a: Byte, u: nat, f: nat)
    requires u + f <= 8
    ensures Extract(a, u, f) == BitsNum(NumBits(a, 8)[8 - u - f..8 - u])
  {
    hide NumBits, BitsNum;
    MiddleBits(NumBits(a, 8), u, f);
    assert Pow2(8) == 256;
    ReadWritten(a, 8);
  }

  lemma DivideOut(q: nat, r: nat, p: nat)
    requires r < p
    ensures (q * p + r) / p == q && (q * p + r) % p == r
  {
    var n := q * p + r;
    assert n == n / p * p + n % p;
    if n / p > q {
      Grows(n / p, q + 1, p);
    } else if n / p < q {
      Grows(q, n / p + 1, p);
    }
  }

  lemma Grows(x: nat, y: nat, p: nat)
    requires x >= y
    ensures x * p >= y * p
  {
  }

  // ---- 32-bit results

  /** A number below 2 to the 32 as a signed 32-bit integer. */
  function Int32(v: nat): int {
    if v < 0x8000_0000 then v else v - 0x1_0000_0000
  }

  lemma {:induction false} Pow2Grows(a: nat, b: nat)
    requires a <= b
    ensures Pow2(a) <= Pow2(b)
    decreases b
  {
    if a < b {
      Pow2Grows(a, b - 1);
    }
  }

  lemma Pow31()
    ensures Pow2(31) == 0x8000_0000
  {
    assert Pow2(8) == 256;
    assert Pow2(16) == 65536;
    assert Pow2(24) == 16777216;
  }

  lemma NoOverflow(b: seq<bool>)
    requires |b| <= 31
    ensures Int32(BitsNum(b)) == BitsNum(b)
  {
    BitsNumBound(b);
    Pow2Grows(|b|, 31);
    Pow31();
  }

  class BitSource {
    const bytes: seq<Byte>
    var byteOffset: nat
    var bitOffset: nat

    ghost predicate Valid()
      reads this
    {
      bitOffset < 8 && byteOffset <= |bytes| && (bitOffset > 0 ==> byteOffset < |bytes|)
    }

    ghost function Position(): nat
      requires Valid()
      reads this
    {
      8 * byteOffset + bitOffset
    }

    /** The bits not read yet. */
    ghost function Rest(): seq<bool>
      requires Valid()
      reads this
    {
      Flatten(bytes)[Position()..]
    }

    constructor (bytes: seq<Byte>)
      ensures Valid() && this.bytes == bytes && Rest() == Flatten(bytes)
    {
      this.bytes := bytes;
      byteOffset := 0;
      bitOffset := 0;
    }

    method Available() returns (n: nat)
      requires Valid()
      ensures n == |Rest()|
    {
      n := 8 * (|bytes| - byteOffset) - bitOffset;
    }

    /** The bits of the current byte from the current one on. */
    lemma ByteBits(i: nat, from: nat, to: nat)
      requires i < |bytes| && from <= to <= 8
      ensures Flatten(bytes)[8 * i + from..8 * i + to] == NumBits(bytes[i], 8)[from..to]
    {
      FlattenAt(bytes, i);
      assert Flatten(bytes)[8 * i + from..8 * i + to] == Flatten(bytes)[8 * i..8 * i + 8][from..to];
    }

    /** The next number of bits read further. */
    lemma ReadMore(start: nat, at: nat, i: nat, from: nat, f: nat, t: nat)
      requires i < |bytes| && from + f <= 8 && at == 8 * i + from && start <= at <= 8 * |bytes|
      requires t == BitsNum(Flatten(bytes)[start..at])
      ensures at + f <= 8 * |bytes|
      ensures t * Pow2(f) + Extract(bytes[i], 8 - from - f, f) == BitsNum(Flatten(bytes)[start..at + f])
    {
      hide Flatten, BitsNum, NumBits, Pow2, Extract;
      var b := Flatten(bytes);
      assert b[start..at + f] == b[start..at] + b[at..at + f];
      BitsNumJoin(b[start..at], b[at..at + f]);
      ByteBits(i, from, from + f);
      ExtractBits(bytes[i], 8 - from - f, f);
    }

    /** The next n bits: the rest of the current byte, whole bytes, the start of another. */
    method TakeBits(n: nat) returns (t: nat)
      requires Valid() && 1 <= n <= |Rest()|
      modifies this
      ensures Valid() && t == BitsNum(old(Rest())[..n]) && Rest() == old(Rest())[n..]
    {
      hide Flatten, BitsNum, Extract, Pow2;
      ghost var all, start := Flatten(bytes), Position();
      assert all[start..start] == [];
      NoBits();
      var numBits, i, from := n, byteOffset, bitOffset;
      t := 0;
      if from > 0 {
        var bitsLeft := 8 - from;
        var toRead := if numBits < bitsLeft then numBits else bitsLeft;
        ReadMore(start, start, i, from, toRead, t);
        t := Extract(bytes[i], bitsLeft - toRead, toRead);
        numBits := numBits - toRead;
        from := from + toRead;
        if from == 8 {
          from := 0;
          i := i + 1;
        }
      }
      ghost var at := 8 * i + from;
      while numBits >= 8
        invariant from == 0 || numBits == 0
        invariant at == 8 * i + from && at + numBits == start + n && start <= at && from < 8
        invariant t == BitsNum(all[start..at])
      {
        ReadMore(start, at, i, 0, 8, t);
        WholeByte(bytes[i]);
        t := t * 256 + bytes[i];
        i := i + 1;
        numBits := numBits - 8;
        at := at + 8;
      }
      if numBits > 0 {
        ReadMore(start, at, i, 0, numBits, t);
        t := t * Pow2(numBits) + Extract(bytes[i], 8 - numBits, numBits);
        from := from + numBits;
        at := at + numBits;
      }
      Slices(all, start, n);
      bitOffset := from;
      byteOffset := i;
    }

    /** The next n bits as a number.  The program throws for a width outside 1 to 32, and when
        there are not so many bits left. */
    method ReadBits(n: nat) returns (r: Option<int>)
      requires Valid()
      modifies this
      ensures Valid()
      ensures r.Some? <==> 1 <= n <= 32 && n <= |old(Rest())|
      ensures r.None? ==> Rest() == old(Rest())
      ensures r.Some? ==> r.value == Int32(BitsNum(old(Rest())[..n])) && Rest() == old(Rest())[n..]
    {
      hide Flatten, BitsNum, Int32;
      var available := Available();
      if n < 1 || n > 32 || n > available {
        return None;
      }
      var t := TakeBits(n);
      r := Some(Int32(t));
    }
  }

  lemma Slices(all: seq<bool>, start: nat, n: nat)
    requires start + n <= |all|
    ensures all[start..start + n] == all[start..][..n] && all[start + n..] == all[start..][n..]
  {
  }

  lemma NoBits()
    ensures BitsNum([]) == 0
  {
  }

  lemma WholeByte(a: Byte)
    ensures Pow2(8) == 256 && Extract(a, 0, 8) == a
  {
    assert Pow2(8) == 256;
  }
}
