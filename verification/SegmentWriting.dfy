/** The writer's loops: digits and characters into bits, then terminator and padding. */
module SegmentWriting {
  import opened BitArrays
  import opened BitStrings
  import opened Segments

  /** Three digits in ten bits, two in seven, one in four. */
  method AppendNumericBytes(content: string, bits: BitArray)
    requires AllDigits(content) && bits.Valid()
    modifies bits, bits.bits
    ensures bits.Valid() && bits.contents == old(bits.contents) + NumericBits(content)
    ensures bits.bits == old(bits.bits) || fresh(bits.bits)
  {
    hide NumBits;
    ghost var before, all := bits.contents, NumericBits(content);
    var n, i := |content|, 0;
    assert content[0..] == content;
    while i < n
      invariant 0 <= i <= n && bits.Valid() && (bits.bits == old(bits.bits) || fresh(bits.bits))
      invariant AllDigits(content[i..])
      invariant bits.contents + NumericBits(content[i..]) == before + all
    {
      ghost var rest, start := content[i..], bits.contents;
      var num1 := Digit(content[i]);
      var ok;
      if i + 2 < n {
        var num2, num3 := Digit(content[i + 1]), Digit(content[i + 2]);
        assert rest[3..] == content[i + 3..];
        ok := bits.AppendBits(num1 * 100 + num2 * 10 + num3, 10);
        i := i + 3;
      } else if i + 1 < n {
        var num2 := Digit(content[i + 1]);
        ok := bits.AppendBits(num1 * 10 + num2, 7);
        i := i + 2;
      } else {
        ok := bits.AppendBits(num1, 4);
        i := i + 1;
      }
      assert bits.contents + NumericBits(content[i..]) == start + NumericBits(rest);
    }
  }

  /** Two characters in eleven bits, one in six; the program throws on any other character. */
  method AppendAlphanumericBytes(content: string, bits: BitArray) returns (ok: bool)
    requires bits.Valid()
    modifies bits, bits.bits
    ensures bits.Valid() && (ok <==> AllAlphanumeric(content))
    ensures ok ==> bits.contents == old(bits.contents) + AlphanumericBits(content)
    ensures bits.bits == old(bits.bits) || fresh(bits.bits)
  {
    hide NumBits, AlphanumericCode;
    ghost var before := bits.contents;
    var n, i := |content|, 0;
    assert content[0..] == content;
    while i < n
      invariant 0 <= i <= n && bits.Valid() && (bits.bits == old(bits.bits) || fresh(bits.bits))
      invariant AllAlphanumeric(content[..i])
      invariant AllAlphanumeric(content) ==> AllAlphanumeric(content[i..])
                                             && bits.contents + AlphanumericBits(content[i..]) == before + AlphanumericBits(content)
    {
      ghost var rest, start := content[i..], bits.contents;
      var code1 := AlphanumericCode(content[i]);
      if code1 == -1 {
        return false;
      }
      CodeInverse(content[i]);
      var done;
      if i + 1 < n {
        var code2 := AlphanumericCode(content[i + 1]);
        if code2 == -1 {
          return false;
        }
        CodeInverse(content[i + 1]);
        assert rest[2..] == content[i + 2..];
        done := bits.AppendBits(code1 * 45 + code2, 11);
        i := i + 2;
      } else {
        done := bits.AppendBits(code1, 6);
        i := i + 1;
      }
      assert AllAlphanumeric(content) ==> bits.contents + AlphanumericBits(content[i..]) == start + AlphanumericBits(rest);
    }
    assert content[..n] == content;
    ok := true;
  }

  /** The count field; the program throws when the count is too large for it. */
  method AppendLengthInfo(numLetters: nat, version: nat, mode: Mode, bits: BitArray) returns (ok: bool)
    requires bits.Valid()
    modifies bits, bits.bits
    ensures bits.Valid() && (ok <==> numLetters < Pow2(CountBits(mode, version)))
    ensures ok ==> bits.contents == old(bits.contents) + NumBits(numLetters, CountBits(mode, version))
    ensures bits.bits == old(bits.bits) || fresh(bits.bits)
  {
    hide NumBits, Pow2, CountBits;
    var numBits := CountBits(mode, version);
    if numLetters >= Pow2(numBits) {
      return false;
    }
    ok := bits.AppendBits(numLetters, numBits);
  }

  /** Up to four zeros, as far as there is room. */
  method AppendTerminator(total: nat, bits: BitArray)
    requires bits.Valid() && bits.size <= total
    modifies bits, bits.bits
    ensures bits.Valid() && (bits.bits == old(bits.bits) || fresh(bits.bits))
    ensures var n := total - old(bits.size);
            bits.contents == old(bits.contents) + Repeat(false, if n < 4 then n else 4)
  {
    ghost var b := bits.contents;
    var i := 0;
    while i < 4 && bits.size < total
      invariant 0 <= i <= 4 && |b| + i <= total
      invariant bits.Valid() && (bits.bits == old(bits.bits) || fresh(bits.bits))
      invariant bits.contents == b + Repeat(false, i)
    {
      bits.AppendBit(false);
      assert b + Repeat(false, i + 1) == (b + Repeat(false, i)) + [false];
      i := i + 1;
    }
  }

  /** Zeros up to a whole byte. */
  method AlignToByte(bits: BitArray)
    requires bits.Valid()
    modifies bits, bits.bits
    ensures bits.Valid() && (bits.bits == old(bits.bits) || fresh(bits.bits))
    ensures bits.contents == old(bits.contents) + Repeat(false, (8 - old(bits.size) % 8) % 8)
  {
    ghost var t := bits.contents;
    var numBitsInLastByte := bits.size % 8;
    if numBitsInLastByte > 0 {
      for k := numBitsInLastByte to 8
        invariant bits.Valid() && (bits.bits == old(bits.bits) || fresh(bits.bits))
        invariant bits.contents == t + Repeat(false, k - numBitsInLastByte)
      {
        bits.AppendBit(false);
        assert t + Repeat(false, k - numBitsInLastByte + 1) == (t + Repeat(false, k - numBitsInLastByte)) + [false];
      }
    } else {
      assert t + Repeat(false, 0) == t;
    }
  }

  method AppendPadding(n: nat, bits: BitArray)
    requires bits.Valid()
    modifies bits, bits.bits
    ensures bits.Valid() && (bits.bits == old(bits.bits) || fresh(bits.bits))
    ensures bits.contents == old(bits.contents) + PadBits(0, n)
  {
    hide NumBits, PadBits;
    ghost var u := bits.contents;
    for k := 0 to n
      invariant bits.Valid() && (bits.bits == old(bits.bits) || fresh(bits.bits))
      invariant bits.contents + PadBits(k, n) == u + PadBits(0, n)
    {
      ghost var start := bits.contents;
      PadStep(k, n);
      var done := bits.AppendBits(if k % 2 == 0 then 236 else 17, 8);
      assert bits.contents + PadBits(k + 1, n) == start + PadBits(k, n);
    }
    PadEnd(n);
  }

  lemma PadStep(k: nat, n: nat)
    requires k < n
    ensures PadBits(k, n) == NumBits(if k % 2 == 0 then 236 else 17, 8) + PadBits(k + 1, n)
  {
  }

  lemma PadEnd(n: nat)
    ensures PadBits(n, n) == []
  {
  }

  /** Terminator, alignment, pad bytes up to the capacity.  The program throws when the bits do
      not fit, and never because of the final size. */
  method TerminateBits(capacity: nat, bits: BitArray) returns (ok: bool)
    requires bits.Valid()
    modifies bits, bits.bits
    ensures bits.Valid() && (ok <==> Terminate(old(bits.contents), capacity).Some?)
    ensures ok ==> bits.contents == Terminate(old(bits.contents), capacity).value
    ensures bits.bits == old(bits.bits) || fresh(bits.bits)
  {
    hide NumBits, PadBits, Holds, Repeat;
    ghost var b := bits.contents;
    var total := capacity * 8;
    if bits.size > total {
      return false;
    }
    AppendTerminator(total, bits);
    ByteAligned(bits.size, capacity);
    AlignToByte(bits);
    var numPaddingBytes := capacity - (bits.size + 7) / 8;
    AppendPadding(numPaddingBytes, bits);
    TerminateFills(b, capacity);
    if bits.size != total {
      return false;
    }
    ok := true;
  }
}
