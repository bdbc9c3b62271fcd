/** A growing sequence of bits, packed 32 to a word. */
module BitArrays {
  import opened BitStrings
  import opened Options
  import opened Words

  /** Bit k of a number, counted from the lowest. */
  function BitOf(v: nat, k: nat): bool {
    if k == 0 then v % 2 == 1 else BitOf(v / 2, k - 1)
  }

  lemma {:induction false} NumBitsAt(v: nat, n: nat, k: nat)
    requires k < n
    ensures NumBits(v, n)[n - 1 - k] == BitOf(v, k)
    decreases n
  {
    if k != 0 {
      NumBitsAt(v / 2, n - 1, k - 1);
    }
  }

  /** The words hold the given bits, and zeros behind them. */
  ghost predicate Holds(words: seq<Word>, b: seq<bool>) {
    && |b| <= 32 * |words|
    && forall k, i :: 0 <= k < |words| && 0 <= i < 32 ==> words[k][i] == (32 * k + i < |b| && b[32 * k + i])
  }

  /** Two places in the words. */
  lemma PlaceOf(i: nat)
    ensures i == 32 * (i / 32) + i % 32
  {
  }

  lemma SamePlace(k: nat, i: nat, l: nat, j: nat)
    requires i < 32 && j < 32 && 32 * k + i == 32 * l + j
    ensures k == l && i == j
  {
  }

  /** Changing one bit of one word. */
  lemma HoldsUpdate(words: seq<Word>, b: seq<bool>, n: nat, w: Word, v: bool)
    requires Holds(words, b) && n < |b|
    requires n / 32 < |words|
    requires forall i :: 0 <= i < 32 ==> w[i] == if i == n % 32 then v else words[n / 32][i]
    ensures Holds(words[n / 32 := w], b[n := v])
  {
    PlaceOf(n);
    var words', b' := words[n / 32 := w], b[n := v];
    forall k, i | 0 <= k < |words'| && 0 <= i < 32
      ensures words'[k][i] == (32 * k + i < |b'| && b'[32 * k + i])
    {
      if 32 * k + i == n {
        SamePlace(k, i, n / 32, n % 32);
      }
    }
  }

  /** One bit more. */
  lemma HoldsAppend(words: seq<Word>, b: seq<bool>, w: Word, v: bool)
    requires Holds(words, b) && |b| < 32 * |words| && |b| / 32 < |words|
    requires forall i :: 0 <= i < 32 ==> w[i] == if i == |b| % 32 then v else words[|b| / 32][i]
    ensures Holds(words[|b| / 32 := w], b + [v])
  {
    var n := |b|;
    PlaceOf(n);
    var words', b' := words[n / 32 := w], b + [v];
    forall k, i | 0 <= k < |words'| && 0 <= i < 32
      ensures words'[k][i] == (32 * k + i < |b'| && b'[32 * k + i])
    {
      if 32 * k + i == n {
        SamePlace(k, i, n / 32, n % 32);
      }
    }
  }

  lemma HoldsGrow(words: seq<Word>, more: seq<Word>, b: seq<bool>)
    requires Holds(words, b) && words <= more
    requires forall k :: |words| <= k < |more| ==> more[k] == Zero()
    ensures Holds(more, b)
  {
  }

  /** How many words hold n bits. */
  function WordsFor(n: nat): nat {
    (n + 31) / 32
  }

  class BitArray {
    var size: nat
    var bits: array<Word>

    /** The bits, in order. */
    ghost var contents: seq<bool>

    ghost predicate Valid()
      reads this, bits
    {
      size == |contents| && Holds(bits[..], contents)
    }

    constructor ()
      ensures Valid() && contents == [] && fresh(bits)
    {
      size := 0;
      contents := [];
      bits := new Word[1](i => Zero());
    }

    constructor Sized(n: nat)
      ensures Valid() && contents == Repeat(false, n) && fresh(bits) && bits.Length == WordsFor(n)
    {
      size := n;
      contents := Repeat(false, n);
      bits := new Word[WordsFor(n)](i => Zero());
    }

    method EnsureCapacity(n: nat)
      requires Valid()
      modifies this
      ensures Valid() && contents == old(contents) && size == old(size) && n <= 32 * bits.Length
      ensures bits == old(bits) || fresh(bits)
    {
      if n > 32 * bits.Length {
        var more := new Word[WordsFor(n)](i => Zero());
        ghost var words := bits[..];
        for i := 0 to bits.Length
          invariant bits == old(bits) && contents == old(contents) && size == old(size)
          invariant more[..i] == words[..i] && bits[..] == words
          invariant forall k :: i <= k < more.Length ==> more[k] == Zero()
        {
          more[i] := bits[i];
        }
        HoldsGrow(words, more[..], contents);
        bits := more;
      }
    }

    /** A bit; past the end nothing is set. */
    method Get(i: nat) returns (b: bool)
      requires Valid()
      ensures b == (i < size && contents[i])
    {
      PlaceOf(i);
      b := false;
      if i / 32 < bits.Length {
        b := And(bits[i / 32], Unit(i % 32)) != Zero();
        BitTest(bits[i / 32], i % 32);
      }
    }

    method Set(i: nat)
      requires Valid() && i < size
      modifies this, bits
      ensures Valid() && bits == old(bits) && contents == old(contents)[i := true]
    {
      var w := Or(bits[i / 32], Unit(i % 32));
      HoldsUpdate(bits[..], contents, i, w, true);
      bits[i / 32] := w;
      contents := contents[i := true];
    }

    method Flip(i: nat)
      requires Valid() && i < size
      modifies this, bits
      ensures Valid() && bits == old(bits) && contents == old(contents)[i := !old(contents)[i]]
    {
      PlaceOf(i);
      var w := Xor(bits[i / 32], Unit(i % 32));
      HoldsUpdate(bits[..], contents, i, w, !contents[i]);
      bits[i / 32] := w;
      contents := contents[i := !contents[i]];
    }

    method AppendBit(b: bool)
      requires Valid()
      modifies this, bits
      ensures Valid() && contents == old(contents) + [b]
      ensures bits == old(bits) || fresh(bits)
    {
      EnsureCapacity(size + 1);
      PlaceOf(size);
      ghost var words := bits[..];
      ghost var w := words[size / 32];
      if b {
        bits[size / 32] := Or(bits[size / 32], Unit(size % 32));
        w := bits[size / 32];
      }
      assert bits[..] == words[size / 32 := w];
      HoldsAppend(words, contents, w, b);
      size := size + 1;
      contents := contents + [b];
    }

    /** The lowest n bits of a number, the highest first. */
    method AppendBits(v: nat, n: nat) returns (ok: bool)
      requires Valid()
      modifies this, bits
      ensures Valid() && (ok <==> n <= 32)
      ensures contents == if ok then old(contents) + NumBits(v, n) else old(contents)
      ensures bits == old(bits) || fresh(bits)
    {
      if n > 32 {
        return false;
      }
      ghost var before := contents;
      EnsureCapacity(size + n);
      var numBitsLeft: int := n;
      while numBitsLeft > 0
        invariant 0 <= numBitsLeft <= n && Valid() && (bits == old(bits) || fresh(bits))
        invariant contents == before + NumBits(v, n)[..n - numBitsLeft]
      {
        NumBitsAt(v, n, numBitsLeft - 1);
        assert NumBits(v, n)[..n - numBitsLeft + 1] == NumBits(v, n)[..n - numBitsLeft] + [BitOf(v, numBitsLeft - 1)];
        AppendBit(BitOf(v, numBitsLeft - 1));
        numBitsLeft := numBitsLeft - 1;
      }
      assert NumBits(v, n)[..n] == NumBits(v, n);
      ok := true;
    }

    method AppendBitArray(other: BitArray)
      requires Valid() && other.Valid() && other != this && other.bits != bits
      modifies this, bits
      ensures Valid() && contents == old(contents) + other.contents
      ensures other.Valid() && other.contents == old(other.contents)
      ensures bits == old(bits) || fresh(bits)
    {
      ghost var before, added := contents, other.contents;
      EnsureCapacity(size + other.size);
      for i := 0 to other.size
        invariant Valid() && other.Valid() && other.bits != bits && other.contents == added
        invariant contents == before + added[..i]
        invariant bits == old(bits) || fresh(bits)
      {
        var b := other.Get(i);
        AppendBit(b);
      }
      assert added[..|added|] == added;
    }

    method Clear()
      requires Valid()
      modifies this, bits
      ensures Valid() && bits == old(bits) && contents == Repeat(false, old(size))
    {
      for n := 0 to bits.Length
        invariant bits == old(bits) && size == old(size) && contents == old(contents)
        invariant forall k :: 0 <= k < n ==> bits[k] == Zero()
      {
        bits[n] := Zero();
      }
      contents := Repeat(false, size);
    }

    /** The words hold the bits with those from start on, below end, set. */
    method SetRange(start: int, end: int) returns (ok: bool)
      requires Valid()
      modifies this, bits
      ensures Valid() && bits == old(bits) && size == old(size)
      ensures ok <==> 0 <= start <= end <= size
      ensures contents == if ok then RangeSet(old(contents), start, end) else old(contents)
    {
      if end < start || start < 0 || end > size {
        return false;
      }
      ok := true;
      ghost var b := contents;
      contents := RangeSet(b, start, end);
      if end == start {
        assert contents == b;
        return;
      }
      var e := end - 1;
      var first, last := start / 32, e / 32;
      RangeStart(bits[..], b, start, first);
      for i := first to last + 1
        invariant bits == old(bits) && size == old(size) && contents == RangeSet(b, start, end)
        invariant Holds(bits[..], RangeSet(b, start, if 32 * i < end then 32 * i else end))
      {
        var firstBit := if i > first then 0 else start % 32;
        var lastBit := if i < last then 31 else e % 32;
        var w := Or(bits[i], RangeMask(firstBit, lastBit));
        RangeWord(bits[..], b, start, end, i, w);
        bits[i] := w;
      }
    }

    /** Whether all bits from start on, below end, have the given value. */
    method IsRange(start: int, end: int, value: bool) returns (r: Option<bool>)
      requires Valid()
      ensures r.Some? <==> 0 <= start <= end <= size
      ensures r.Some? ==> (r.value <==> forall p :: start <= p < end ==> contents[p] == value)
    {
      if end < start || start < 0 || end > size {
        return None;
      }
      if end == start {
        return Some(true);
      }
      var e := end - 1;
      var first, last := start / 32, e / 32;
      for i := first to last + 1
        invariant forall p :: start <= p < end && p < 32 * i ==> contents[p] == value
      {
        var firstBit := if i > first then 0 else start % 32;
        var lastBit := if i < last then 31 else e % 32;
        var mask := RangeMask(firstBit, lastBit);
        WordInRange(bits[..], contents, start, end, i, value);
        if And(bits[i], mask) != (if value then mask else Zero()) {
          return Some(false);
        }
      }
      r := Some(true);
    }

    /** The first bit set from a place on, or the size. */
    method GetNextSet(from: nat) returns (r: nat)
      requires Valid()
      ensures from <= size ==> from <= r <= size
      ensures from <= size ==> (r < size ==> contents[r]) && forall p :: from <= p < r ==> !contents[p]
      ensures from > size ==> r == size
    {
      if from >= size {
        return size;
      }
      PlaceOf(from);
      var i := from / 32;
      var w := And(bits[i], Not(RangeBelow(from % 32)));
      FromPlace(bits[..], contents, from);
      while w == Zero()
        invariant from / 32 <= i < bits.Length
        invariant forall j :: 0 <= j < 32 ==> w[j] == (32 * i + j >= from && bits[i][j])
        invariant forall p :: from <= p < size && p < 32 * i ==> !contents[p]
        decreases bits.Length - i
      {
        NoneInWord(bits[..], contents, from, i);
        i := i + 1;
        if i == bits.Length {
          return size;
        }
        w := bits[i];
      }
      var z := NumberOfTrailingZeros(w);
      LowestInWord(bits[..], contents, from, i, w, z);
      r := 32 * i + z;
      if r > size {
        r := size;
      }
    }

    /** The first bit not set from a place on, or the size. */
    method GetNextUnset(from: nat) returns (r: nat)
      requires Valid()
      ensures from <= size ==> from <= r <= size
      ensures from <= size ==> (r < size ==> !contents[r]) && forall p :: from <= p < r ==> contents[p]
      ensures from > size ==> r == size
    {
      if from >= size {
        return size;
      }
      PlaceOf(from);
      var i := from / 32;
      var w := And(Not(bits[i]), Not(RangeBelow(from % 32)));
      while w == Zero()
        invariant from / 32 <= i < bits.Length
        invariant forall j :: 0 <= j < 32 ==> w[j] == (32 * i + j >= from && !bits[i][j])
        invariant forall p :: from <= p < size && p < 32 * i ==> contents[p]
        decreases bits.Length - i
      {
        AllInWord(bits[..], contents, from, i);
        i := i + 1;
        if i == bits.Length {
          return size;
        }
        w := Not(bits[i]);
      }
      var z := NumberOfTrailingZeros(w);
      LowestUnset(bits[..], contents, from, i, w, z);
      r := 32 * i + z;
      if r > size {
        r := size;
      }
    }

    /** Adds another array of the same size bit by bit. */
    method XorWith(other: BitArray) returns (ok: bool)
      requires Valid() && other.Valid() && other != this && other.bits != bits
      modifies this, bits
      ensures Valid() && bits == old(bits) && size == old(size)
      ensures ok <==> size == other.size
      ensures contents == if ok then XorBits(old(contents), other.contents) else old(contents)
    {
      if size != other.size {
        return false;
      }
      ghost var b, words := contents, bits[..];
      for n := 0 to bits.Length
        invariant bits == old(bits) && size == old(size) && contents == b && other.Valid() && other.contents == old(other.contents)
        invariant other.bits == old(other.bits) && |words| == bits.Length
        invariant forall k :: n <= k < bits.Length ==> bits[k] == words[k]
        invariant forall k :: 0 <= k < n ==>
                    bits[k] == Xor(words[k], if k < other.bits.Length then other.bits[k] else Zero())
      {
        bits[n] := Xor(bits[n], if n < other.bits.Length then other.bits[n] else Zero());
      }
      XorHolds(words, b, other.bits[..], other.contents, bits[..]);
      contents := XorBits(b, other.contents);
      ok := true;
    }

    /** The byte from a place on, the highest bit first. */
    method ByteFrom(start: nat) returns (v: Byte)
      requires Valid()
      ensures v == ByteAt(contents, start)
    {
      hide ByteOf, Holds;
      ghost var b := Eight(contents, start);
      var n: nat := 0;
      for j := 0 to 8
        invariant n == BitsNum(b[..j])
      {
        assert b[..j + 1][..j] == b[..j];
        var bit := Get(start + j);
        n := 2 * n + if bit then 1 else 0;
      }
      assert b[..8] == b;
      ByteValue(b, n);
      v := n;
    }

    /** Whole bytes from a place on into an array. */
    method ToBytes(bitOffset: nat, target: array<Byte>, offset: nat, numBytes: nat)
      requires Valid() && offset + numBytes <= target.Length
      modifies target
      ensures forall k :: 0 <= k < numBytes ==> target[offset + k] == ByteAt(contents, bitOffset + 8 * k)
      ensures forall k :: 0 <= k < target.Length && !(offset <= k < offset + numBytes) ==> target[k] == old(target[k])
    {
      hide ByteAt, Holds;
      for i := 0 to numBytes
        invariant forall k :: 0 <= k < i ==> target[offset + k] == ByteAt(contents, bitOffset + 8 * k)
        invariant forall k :: 0 <= k < target.Length && !(offset <= k < offset + i) ==> target[k] == old(target[k])
      {
        target[offset + i] := ByteFrom(bitOffset + 8 * i);
      }
    }

    /** The words in the opposite order, each of them turned around. */
    method MirrorWords(n: nat) returns (newBits: array<Word>)
      requires n <= bits.Length
      ensures fresh(newBits) && newBits.Length == bits.Length
      ensures forall k :: 0 <= k < n ==> newBits[n - 1 - k] == Mirrored(bits[k])
      ensures forall k :: n <= k < newBits.Length ==> newBits[k] == Zero()
    {
      hide Mirrored, ReversedWord, Zero;
      newBits := new Word[bits.Length](i => Zero());
      for a := 0 to n
        invariant forall k :: 0 <= k < a ==> newBits[n - 1 - k] == Mirrored(bits[k])
        invariant forall k :: n <= k < newBits.Length ==> newBits[k] == Zero()
      {
        newBits[n - 1 - a] := ReversedWord(bits[a]);
        WordReversed(bits[a]);
      }
    }

    /** Turns the order of the bits around. */
    method Reverse()
      requires Valid()
      modifies this
      ensures Valid() && contents == Reversed(old(contents)) && size == old(size)
      ensures fresh(bits) && bits.Length == old(bits.Length)
    {
      hide Holds, Mirrored, MovedDown, Reversed;
      var n := (size + 31) / 32;
      HoldsSize(bits[..], contents);
      var newBits := MirrorWords(n);
      ghost var b, e := contents, newBits[..];
      if size != 32 * n {
        ShiftWords(newBits, n, 32 * n - size);
        ShiftedHolds(bits[..], b, n, e, newBits[..], 32 * n - size);
      } else {
        MirroredHolds(bits[..], b, n, e);
      }
      bits := newBits;
      contents := Reversed(b);
    }
  }

  /** Moves the bits of the first n words f places down, across the words. */
  method ShiftWords(a: array<Word>, n: nat, f: nat)
    requires 1 <= n <= a.Length && 0 < f < 32
    modifies a
    requires forall k :: n <= k < a.Length ==> a[k] == Zero()
    ensures MovedDown(old(a[..]), a[..], n, f)
  {
    hide Or, ShiftRight, ShiftLeft, Zero;
    var current := ShiftRight(a[0], f);
    for i := 1 to n
      invariant current == ShiftRight(old(a[i - 1]), f)
      invariant forall k :: 0 <= k < i - 1 ==> a[k] == Or(ShiftRight(old(a[k]), f), ShiftLeft(old(a[k + 1]), 32 - f))
      invariant forall k :: i <= k < a.Length ==> a[k] == old(a[k])
    {
      var next := a[i];
      a[i - 1] := Or(current, ShiftLeft(next, 32 - f));
      current := ShiftRight(next, f);
    }
    a[n - 1] := current;
  }

  lemma HoldsSize(words: seq<Word>, b: seq<bool>)
    requires Holds(words, b)
    ensures |b| <= 32 * |words|
  {
  }

  lemma BitTest(w: Word, i: nat)
    requires i < 32
    ensures And(w, Unit(i)) != Zero() <==> w[i]
  {
    assert And(w, Unit(i))[i] == w[i];
    if !w[i] {
      assert And(w, Unit(i)) == Zero();
    }
  }

  // ---- Ranges

  function RangeSet(b: seq<bool>, start: int, end: int): (r: seq<bool>)
    ensures |r| == |b|
  {
    seq(|b|, p requires 0 <= p < |b| => b[p] || start <= p < end)
  }

  /** Bits f to u: in the program (2 << u) - (1 << f). */
  function RangeMask(f: nat, u: nat): Word {
    seq(32, i => f <= i <= u)
  }

  /** Bits below f: (1 << f) - 1. */
  function RangeBelow(f: nat): Word {
    seq(32, i => i < f)
  }

  lemma RangeStart(words: seq<Word>, b: seq<bool>, start: nat, i: nat)
    requires Holds(words, b) && 32 * i <= start
    ensures forall e: int :: e <= start ==> RangeSet(b, start, e) == b
  {
  }

  lemma RangeWord(words: seq<Word>, b: seq<bool>, start: nat, end: nat, i: nat, w: Word)
    requires start < end <= |b| && start / 32 <= i <= (end - 1) / 32 && i < |words|
    requires Holds(words, RangeSet(b, start, if 32 * i < end then 32 * i else end))
    requires w == Or(words[i], RangeMask(if i > start / 32 then 0 else start % 32,
                                         if i < (end - 1) / 32 then 31 else (end - 1) % 32))
    ensures Holds(words[i := w], RangeSet(b, start, if 32 * (i + 1) < end then 32 * (i + 1) else end))
  {
    PlaceOf(start);
    PlaceOf(end - 1);
    var b', words' := RangeSet(b, start, if 32 * (i + 1) < end then 32 * (i + 1) else end), words[i := w];
    forall k, j | 0 <= k < |words'| && 0 <= j < 32 ensures words'[k][j] == (32 * k + j < |b'| && b'[32 * k + j]) {
    }
  }

  lemma WordInRange(words: seq<Word>, b: seq<bool>, start: nat, end: nat, i: nat, value: bool)
    requires Holds(words, b) && start < end <= |b| && start / 32 <= i <= (end - 1) / 32
    ensures i < |words|
    ensures var mask := RangeMask(if i > start / 32 then 0 else start % 32,
                                  if i < (end - 1) / 32 then 31 else (end - 1) % 32);
            And(words[i], mask) == (if value then mask else Zero())
            <==> forall p :: start <= p < end && 32 * i <= p < 32 * i + 32 ==> b[p] == value
  {
    PlaceOf(start);
    PlaceOf(end - 1);
    var mask := RangeMask(if i > start / 32 then 0 else start % 32, if i < (end - 1) / 32 then 31 else (end - 1) % 32);
    var w := And(words[i], mask);
    var target := if value then mask else Zero();
    if w == target {
      forall p | start <= p < end && 32 * i <= p < 32 * i + 32 ensures b[p] == value {
        var j := p - 32 * i;
        assert words[i][j] == b[32 * i + j];
        assert w[j] == target[j] && mask[j];
      }
    } else {
      var j := WordsDiffer(w, target);
      assert words[i][j] == (32 * i + j < |b| && b[32 * i + j]);
      assert start <= 32 * i + j < end;
    }
  }

  lemma WordsDiffer(v: Word, w: Word) returns (j: nat)
    requires v != w
    ensures j < 32 && v[j] != w[j]
  {
    if k :| 0 <= k < 32 && v[k] != w[k] {
      j := k;
    }
  }

  // ---- Searching

  lemma FromPlace(words: seq<Word>, b: seq<bool>, from: nat)
    requires Holds(words, b) && from < |b|
    ensures from / 32 < |words|
    ensures var w := And(words[from / 32], Not(RangeBelow(from % 32)));
            forall j :: 0 <= j < 32 ==> w[j] == (32 * (from / 32) + j >= from && words[from / 32][j])
  {
    PlaceOf(from);
  }

  lemma NoneInWord(words: seq<Word>, b: seq<bool>, from: nat, i: nat)
    requires Holds(words, b) && i < |words|
    requires forall j :: 0 <= j < 32 ==> !(32 * i + j >= from && words[i][j])
    ensures forall p :: from <= p < |b| && 32 * i <= p < 32 * i + 32 ==> !b[p]
  {
    forall p | from <= p < |b| && 32 * i <= p < 32 * i + 32 ensures !b[p] {
      assert words[i][p - 32 * i] == b[32 * i + (p - 32 * i)];
    }
  }

  lemma LowestInWord(words: seq<Word>, b: seq<bool>, from: nat, i: nat, w: Word, z: nat)
    requires Holds(words, b) && i < |words| && LowestIs(w, z)
    requires forall j :: 0 <= j < 32 ==> w[j] == (32 * i + j >= from && words[i][j])
    ensures 32 * i + z < |b| && b[32 * i + z] && 32 * i + z >= from
    ensures forall p :: from <= p < 32 * i + z && 32 * i <= p ==> !b[p]
  {
    assert words[i][z] == (32 * i + z < |b| && b[32 * i + z]);
    forall p | from <= p < 32 * i + z && 32 * i <= p ensures !b[p] {
      assert words[i][p - 32 * i] == b[32 * i + (p - 32 * i)];
    }
  }

  lemma AllInWord(words: seq<Word>, b: seq<bool>, from: nat, i: nat)
    requires Holds(words, b) && i < |words|
    requires forall j :: 0 <= j < 32 ==> !(32 * i + j >= from && !words[i][j])
    ensures forall p :: from <= p < |b| && 32 * i <= p < 32 * i + 32 ==> b[p]
  {
    forall p | from <= p < |b| && 32 * i <= p < 32 * i + 32 ensures b[p] {
      assert words[i][p - 32 * i] == b[32 * i + (p - 32 * i)];
    }
  }

  /** The bits behind the end count as not set. */
  lemma LowestUnset(words: seq<Word>, b: seq<bool>, from: nat, i: nat, w: Word, z: nat)
    requires Holds(words, b) && i < |words| && LowestIs(w, z)
    requires forall j :: 0 <= j < 32 ==> w[j] == (32 * i + j >= from && !words[i][j])
    ensures 32 * i + z >= from && (32 * i + z < |b| ==> !b[32 * i + z])
    ensures forall p :: from <= p < 32 * i + z && 32 * i <= p && p < |b| ==> b[p]
  {
    assert words[i][z] == (32 * i + z < |b| && b[32 * i + z]);
    forall p | from <= p < 32 * i + z && 32 * i <= p && p < |b| ensures b[p] {
      assert words[i][p - 32 * i] == b[32 * i + (p - 32 * i)];
    }
  }

  // ---- Whole-array operations

  /** Eight bits from a place on, zeros past the end. */
  function Eight(b: seq<bool>, start: nat): (r: seq<bool>)
    ensures |r| == 8
  {
    seq(8, j requires 0 <= j < 8 => start + j < |b| && b[start + j])
  }

  function ByteAt(b: seq<bool>, start: nat): Byte {
    ByteOf(Eight(b, start))
  }

  /** Inside, these are the bytes of the bits. */
  lemma ByteInGroup(b: seq<bool>, k: nat)
    requires 8 * k + 8 <= |b|
    ensures k < |b| / 8 && ByteAt(b, 8 * k) == Group(b)[k]
  {
    assert Eight(b, 8 * k) == b[8 * k..8 * k + 8];
  }

  function XorBits(a: seq<bool>, b: seq<bool>): (r: seq<bool>)
    requires |a| == |b|
    ensures |r| == |a|
  {
    seq(|a|, i requires 0 <= i < |a| => a[i] != b[i])
  }

  lemma XorHolds(words: seq<Word>, b: seq<bool>, others: seq<Word>, c: seq<bool>, result: seq<Word>)
    requires Holds(words, b) && Holds(others, c) && |b| == |c| && |result| == |words|
    requires forall k :: 0 <= k < |words| ==> result[k] == Xor(words[k], if k < |others| then others[k] else Zero())
    ensures Holds(result, XorBits(b, c))
  {
    var r := XorBits(b, c);
    forall k, i | 0 <= k < |result| && 0 <= i < 32 ensures result[k][i] == (32 * k + i < |r| && r[32 * k + i]) {
      assert words[k][i] == (32 * k + i < |b| && b[32 * k + i]);
      if k < |others| {
        assert others[k][i] == (32 * k + i < |c| && c[32 * k + i]);
      }
    }
  }

  lemma ByteValue(b: seq<bool>, v: nat)
    requires |b| == 8 && v == BitsNum(b)
    ensures v < 256 && ByteOf(b) == v
  {
    BitsNumBound(b);
    assert Pow2(8) == 256;
  }

  // ---- Reversal

  function Reversed(b: seq<bool>): (r: seq<bool>)
    ensures |r| == |b|
  {
    seq(|b|, i requires 0 <= i < |b| => b[|b| - 1 - i])
  }

  function Mirrored(w: Word): Word {
    seq(32, i requires 0 <= i < 32 => w[31 - i])
  }

  /** Bits i with i % (2 * k) < k, in the program 0x55555555, 0x33333333 and so on. */
  function GroupMask(k: nat): Word
    requires k > 0
  {
    seq(32, i requires 0 <= i < 32 => i % (2 * k) < k)
  }

  /** Groups of k bits change places with their neighbours. */
  function SwapGroups(w: Word, k: nat): Word
    requires k > 0
  {
    Or(And(SignedShiftRight(w, k), GroupMask(k)), ShiftLeft(And(w, GroupMask(k)), k))
  }

  function ReversedWord(w: Word): Word {
    SwapGroups(SwapGroups(SwapGroups(SwapGroups(SwapGroups(w, 1), 2), 4), 8), 16)
  }

  function Partner(i: nat, k: nat): nat
    requires k > 0
  {
    if i % (2 * k) < k then i + k else if i >= k then i - k else i
  }

  lemma Swap1(w: Word, i: nat)
    requires i < 32
    ensures Partner(i, 1) < 32 && SwapGroups(w, 1)[i] == w[Partner(i, 1)]
  {
  }

  lemma Swap2(w: Word, i: nat)
    requires i < 32
    ensures Partner(i, 2) < 32 && SwapGroups(w, 2)[i] == w[Partner(i, 2)]
  {
  }

  lemma Swap4(w: Word, i: nat)
    requires i < 32
    ensures Partner(i, 4) < 32 && SwapGroups(w, 4)[i] == w[Partner(i, 4)]
  {
  }

  lemma Swap8(w: Word, i: nat)
    requires i < 32
    ensures Partner(i, 8) < 32 && SwapGroups(w, 8)[i] == w[Partner(i, 8)]
  {
  }

  lemma Swap16(w: Word, i: nat)
    requires i < 32
    ensures Partner(i, 16) < 32 && SwapGroups(w, 16)[i] == w[Partner(i, 16)]
  {
  }

  lemma ReversedAt(w: Word, i: nat)
    requires i < 32
    ensures ReversedWord(w)[i] == w[31 - i]
  {
    hide SwapGroups, Partner;
    Partners(i);
    var w1 := SwapGroups(w, 1);
    var w2 := SwapGroups(w1, 2);
    var w4 := SwapGroups(w2, 4);
    var w8 := SwapGroups(w4, 8);
    Swap16(w8, i);
    Swap8(w4, Partner(i, 16));
    Swap4(w2, Partner(Partner(i, 16), 8));
    Swap2(w1, Partner(Partner(Partner(i, 16), 8), 4));
    Swap1(w, Partner(Partner(Partner(Partner(i, 16), 8), 4), 2));
  }

  lemma WordReversed(w: Word)
    ensures ReversedWord(w) == Mirrored(w)
  {
    hide ReversedWord;
    forall i | 0 <= i < 32 ensures ReversedWord(w)[i] == Mirrored(w)[i] {
      ReversedAt(w, i);
    }
  }

  lemma Partners1(i: nat)
    requires 0 <= i < 8
    ensures Partner(Partner(Partner(Partner(Partner(i, 16), 8), 4), 2), 1) == 31 - i
  {
  }

  lemma Partners2(i: nat)
    requires 8 <= i < 16
    ensures Partner(Partner(Partner(Partner(Partner(i, 16), 8), 4), 2), 1) == 31 - i
  {
  }

  lemma Partners3(i: nat)
    requires 16 <= i < 24
    ensures Partner(Partner(Partner(Partner(Partner(i, 16), 8), 4), 2), 1) == 31 - i
  {
  }

  lemma Partners4(i: nat)
    requires 24 <= i < 32
    ensures Partner(Partner(Partner(Partner(Partner(i, 16), 8), 4), 2), 1) == 31 - i
  {
  }

  lemma Partners(i: nat)
    requires i < 32
    ensures Partner(Partner(Partner(Partner(Partner(i, 16), 8), 4), 2), 1) == 31 - i
  {
    hide Partner;
    if i < 8 {
      Partners1(i);
    } else if i < 16 {
      Partners2(i);
    } else if i < 24 {
      Partners3(i);
    } else {
      Partners4(i);
    }
  }

  lemma MirroredHolds(words: seq<Word>, b: seq<bool>, n: nat, e: seq<Word>)
    requires Holds(words, b) && |b| == 32 * n && n <= |words| == |e|
    requires forall k :: 0 <= k < n ==> e[n - 1 - k] == Mirrored(words[k])
    requires forall k :: n <= k < |e| ==> e[k] == Zero()
    ensures Holds(e, Reversed(b))
  {
    var r := Reversed(b);
    forall k, i | 0 <= k < |e| && 0 <= i < 32 ensures e[k][i] == (32 * k + i < |r| && r[32 * k + i]) {
      if k < n {
        assert e[n - 1 - (n - 1 - k)] == Mirrored(words[n - 1 - k]);
        assert words[n - 1 - k][31 - i] == b[32 * (n - 1 - k) + (31 - i)];
      }
    }
  }

  /** The bit of the mirrored words that ends up at place 32 * k + i. */
  lemma MirroredBit(words: seq<Word>, b: seq<bool>, n: nat, e: seq<Word>, k: nat, i: nat)
    requires Holds(words, b) && n <= |words| == |e| && |b| <= 32 * n && k < n && i < 32
    requires forall k :: 0 <= k < n ==> e[n - 1 - k] == Mirrored(words[k])
    ensures var p := 32 * n - 1 - (32 * k + i); p >= 0 && e[k][i] == (p < |b| && b[p])
  {
    hide Mirrored;
    assert e[n - 1 - (n - 1 - k)] == Mirrored(words[n - 1 - k]);
    MirroredAt(words[n - 1 - k], i);
    var q := n - 1 - k;
    assert words[q][31 - i] == (32 * q + (31 - i) < |b| && b[32 * q + (31 - i)]);
  }

  lemma MirroredAt(w: Word, i: nat)
    requires i < 32
    ensures Mirrored(w)[i] == w[31 - i]
  {
  }

  ghost predicate MovedDown(e: seq<Word>, r: seq<Word>, n: nat, f: nat)
    requires 1 <= n <= |e| == |r| && 0 < f < 32
  {
    && (forall k :: 0 <= k < n - 1 ==> r[k] == Or(ShiftRight(e[k], f), ShiftLeft(e[k + 1], 32 - f)))
    && r[n - 1] == ShiftRight(e[n - 1], f)
    && forall k :: n <= k < |e| ==> r[k] == e[k] == Zero()
  }

  lemma MovedBit(e: seq<Word>, r: seq<Word>, n: nat, f: nat, k: nat, i: nat)
    requires 1 <= n <= |e| == |r| && 0 < f < 32 && MovedDown(e, r, n, f) && k < |r| && i < 32
    ensures r[k][i] == if k >= n then false else if i + f < 32 then e[k][i + f]
                       else if k < n - 1 then e[k + 1][i + f - 32] else false
  {
    if k < n - 1 {
      assert r[k] == Or(ShiftRight(e[k], f), ShiftLeft(e[k + 1], 32 - f));
    } else if k == n - 1 {
      assert r[k] == ShiftRight(e[k], f);
    } else {
      assert r[k] == Zero();
    }
  }

  lemma ShiftedHolds(words: seq<Word>, b: seq<bool>, n: nat, e: seq<Word>, r: seq<Word>, f: nat)
    requires Holds(words, b) && 0 < f < 32 && |b| == 32 * n - f && 1 <= n <= |words| == |e| == |r|
    requires forall k :: 0 <= k < n ==> e[n - 1 - k] == Mirrored(words[k])
    requires MovedDown(e, r, n, f)
    ensures Holds(r, Reversed(b))
  {
    hide Mirrored, MovedDown;
    var c := Reversed(b);
    forall k, i | 0 <= k < |r| && 0 <= i < 32 ensures r[k][i] == (32 * k + i < |c| && c[32 * k + i]) {
      MovedBit(e, r, n, f, k, i);
      if k < n && i + f < 32 {
        MirroredBit(words, b, n, e, k, i + f);
      } else if k < n - 1 {
        MirroredBit(words, b, n, e, k + 1, i + f - 32);
      }
    }
  }
}
