/** Bit stuffing of Aztec codes: no code word may be all zeros or all ones. */
module AztecStuffing {
  import opened Options
  import opened BitStrings
  import opened BitArrays

  /** The next t bits, ones after the end. */
  function NextWord(b: seq<bool>, t: nat): (w: seq<bool>)
    ensures |w| == t
  {
    seq(t, (i: nat) => i >= |b| || b[i])
  }

  predicate AllBits(b: seq<bool>, v: bool) {
    forall i :: 0 <= i < |b| ==> b[i] == v
  }

  function After(b: seq<bool>, n: nat): seq<bool> {
    if n >= |b| then [] else b[n..]
  }

  /** A word whose bits but the last are alike gets the other bit for its last, which then opens
      the next word. */
  function StuffedWord(w: seq<bool>): (r: seq<bool>)
    requires |w| >= 2
    ensures |r| == |w|
  {
    var top := w[..|w| - 1];
    if AllBits(top, true) then top + [false] else if AllBits(top, false) then top + [true] else w
  }

  function Taken(w: seq<bool>): nat
    requires |w| >= 2
  {
    var top := w[..|w| - 1];
    if AllBits(top, true) || AllBits(top, false) then |w| - 1 else |w|
  }

  function Stuffed(b: seq<bool>, t: nat): seq<bool>
    requires t >= 2
    decreases |b|
  {
    if b == [] then [] else
    var w := NextWord(b, t);
    StuffedWord(w) + Stuffed(After(b, Taken(w)), t)
  }

  /** The code words of a bit string. */
  function CodeWords(b: seq<bool>, t: nat): seq<nat>
    requires t >= 1
    decreases |b|
  {
    if |b| < t then [] else [BitsNum(b[..t])] + CodeWords(b[t..], t)
  }

  // ---- Reading

  predicate Bad(l: nat, t: nat) {
    l == 0 || l == Pow2(t) - 1
  }

  function UnstuffedWord(l: nat, t: nat): seq<bool>
    requires t >= 1
  {
    if l == 1 || l == Pow2(t) - 2 then Repeat(l > 1, t - 1) else NumBits(l, t)
  }

  function UnstuffedBits(words: seq<nat>, t: nat): seq<bool>
    requires t >= 1
    decreases |words|
  {
    if words == [] then [] else UnstuffedWord(words[0], t) + UnstuffedBits(words[1..], t)
  }

  /** What the reader makes of the corrected code words; none when one of them cannot be. */
  ghost function Unstuffed(words: seq<nat>, t: nat): Option<seq<bool>>
    requires t >= 1
  {
    if exists u :: 0 <= u < |words| && Bad(words[u], t) then None else Some(UnstuffedBits(words, t))
  }

  // ---- Words by their number

  lemma {:induction false} AllOf(b: seq<bool>)
    ensures BitsNum(b) == 0 <==> AllBits(b, false)
    ensures BitsNum(b) == Pow2(|b|) - 1 <==> AllBits(b, true)
    decreases |b|
  {
    if b != [] {
      var n := |b| - 1;
      AllOf(b[..n]);
      BitsNumBound(b[..n]);
      assert AllBits(b, false) <==> AllBits(b[..n], false) && !b[n];
      assert AllBits(b, true) <==> AllBits(b[..n], true) && b[n];
    }
  }

  /** A stuffed word is never bad, and the reader takes back the bits the writer took. */
  lemma WordUnstuffed(w: seq<bool>)
    requires |w| >= 2
    ensures var l := BitsNum(StuffedWord(w));
            !Bad(l, |w|) && UnstuffedWord(l, |w|) == w[..Taken(w)]
  {
    var t := |w|;
    var top := w[..t - 1];
    var r := StuffedWord(w);
    assert r[..t - 1] == top;
    AllOf(top);
    BitsNumBound(top);
    WriteRead(r);
    assert Pow2(t) == 2 * Pow2(t - 1) && Pow2(t - 1) == 2 * Pow2(t - 2);
    assert BitsNum(r) == 2 * BitsNum(top) + (if r[t - 1] then 1 else 0);
    if AllBits(top, true) {
      assert !AllBits(top, false) by { assert top[0]; }
      assert Repeat(true, t - 1) == top;
    } else if AllBits(top, false) {
      assert Repeat(false, t - 1) == top;
    } else {
      assert r == w;
    }
  }

  /** The words of a stuffed string, from its first one on. */
  lemma StuffedWords(b: seq<bool>, t: nat)
    requires t >= 2 && b != []
    ensures var w := NextWord(b, t);
            CodeWords(Stuffed(b, t), t)
              == [BitsNum(StuffedWord(w))] + CodeWords(Stuffed(After(b, Taken(w)), t), t)
  {
    hide StuffedWord, BitsNum, Taken;
    var w := NextWord(b, t);
    var more := Stuffed(After(b, Taken(w)), t);
    assert Stuffed(b, t) == StuffedWord(w) + more;
    hide Stuffed;
    assert (StuffedWord(w) + more)[..t] == StuffedWord(w) && (StuffedWord(w) + more)[t..] == more;
  }

  /** The bits taken are those that were left, and ones. */
  lemma TakenBits(b: seq<bool>, t: nat, n: nat)
    requires n <= t
    ensures n <= |b| ==> NextWord(b, t)[..n] + After(b, n) == b
    ensures n > |b| ==> NextWord(b, t)[..n] == b + Repeat(true, n - |b|)
  {
  }

  /** Stuffing is undone by reading, but for padding of fewer ones than a word has bits. */
  lemma {:induction false} StuffingRoundTrip(b: seq<bool>, t: nat)
    requires t >= 2
    ensures exists k: nat :: k < t && Unstuffed(CodeWords(Stuffed(b, t), t), t) == Some(b + Repeat(true, k))
    decreases |b|
  {
    hide StuffedWord, NextWord, BitsNum, UnstuffedWord, Taken, Bad;
    if b == [] {
      NothingLeft(t);
      assert b + Repeat(true, 0) == [];
    } else {
      var w := NextWord(b, t);
      TakenAtMost(w);
      var n := Taken(w);
      var rest := After(b, n);
      StuffingRoundTrip(rest, t);
      var k: nat :| k < t && Unstuffed(CodeWords(Stuffed(rest, t), t), t) == Some(rest + Repeat(true, k));
      WordUnstuffed(w);
      StuffedWords(b, t);
      TakenBits(b, t, n);
      var words := CodeWords(Stuffed(b, t), t);
      assert words[1..] == CodeWords(Stuffed(rest, t), t);
      FirstGood(words, t);
      hide Unstuffed, UnstuffedBits, CodeWords;
      if n <= |b| {
        assert w[..n] + (rest + Repeat(true, k)) == b + Repeat(true, k);
      } else {
        NothingLeft(t);
        assert rest + Repeat(true, k) == Repeat(true, k);
        assert w[..n] + [] == b + Repeat(true, n - |b|);
      }
    }
  }

  /** No code word of a stuffed string is all zeros or all ones. */
  lemma {:induction false} NoBadWord(b: seq<bool>, t: nat, u: nat)
    requires t >= 2 && u < |CodeWords(Stuffed(b, t), t)|
    ensures 0 < CodeWords(Stuffed(b, t), t)[u] < Pow2(t) - 1
    decreases |b|
  {
    hide StuffedWord, NextWord, BitsNum, Taken, Pow2;
    if b != [] {
      var w := NextWord(b, t);
      TakenAtMost(w);
      WordUnstuffed(w);
      BitsNumBound(StuffedWord(w));
      StuffedWords(b, t);
      if u > 0 {
        NoBadWord(After(b, Taken(w)), t, u - 1);
      }
    }
  }

  lemma TakenAtMost(w: seq<bool>)
    requires |w| >= 2
    ensures |w| - 1 <= Taken(w) <= |w|
  {
  }

  lemma NothingLeft(t: nat)
    requires t >= 2
    ensures Unstuffed(CodeWords(Stuffed([], t), t), t) == Some([])
  {
  }

  lemma FirstGood(words: seq<nat>, t: nat)
    requires t >= 1 && words != [] && !Bad(words[0], t) && Unstuffed(words[1..], t).Some?
    ensures Unstuffed(words, t) == Some(UnstuffedWord(words[0], t) + Unstuffed(words[1..], t).value)
  {
    forall u | 0 <= u < |words| ensures !Bad(words[u], t) {
      assert u > 0 ==> words[u] == words[1..][u - 1];
    }
  }

  // ---- The loops

  method StuffBits(bits: BitArray, wordSize: nat) returns (out: BitArray)
    requires bits.Valid() && 2 <= wordSize <= 30
    ensures fresh(out) && fresh(out.bits) && out.Valid() && out.contents == Stuffed(bits.contents, wordSize)
  {
    hide Stuffed, After, NextWord, StuffedWord, Taken;
    out := new BitArray();
    var i := 0;
    ghost var b := bits.contents;
    assert After(b, 0) == b by { AfterNone(b); }
    while i < bits.size
      invariant fresh(out) && fresh(out.bits) && out.Valid() && bits.Valid() && bits.contents == b
      invariant bits.bits == old(bits.bits) && bits.bits[..] == old(bits.bits[..]) && bits.size == |b|
      invariant out.contents + Stuffed(After(b, i), wordSize) == Stuffed(b, wordSize)
      decreases |b| - i
    {
      var word := ReadWord(bits, i, wordSize);
      ghost var w := NextWord(After(b, i), wordSize);
      TakenAtMost(w);
      StuffedStep(out.contents, b, i, wordSize);
      var again := AppendStuffed(out, word, w, wordSize);
      if again {
        i := i - 1;
      }
      i := i + wordSize;
    }
    StuffedDone(b, i, wordSize);
  }

  lemma AfterNone(b: seq<bool>)
    ensures After(b, 0) == b
  {
  }

  lemma StuffedDone(b: seq<bool>, i: nat, t: nat)
    requires i >= |b| && t >= 2
    ensures Stuffed(After(b, i), t) == []
  {
  }

  /** Appends a word, stuffed if need be; then its last bit is to be taken again. */
  method AppendStuffed(out: BitArray, word: nat, ghost w: seq<bool>, wordSize: nat) returns (again: bool)
    requires out.Valid() && 2 <= wordSize <= 30 && |w| == wordSize && word == BitsNum(w)
    modifies out, out.bits
    ensures out.Valid() && out.contents == old(out.contents) + StuffedWord(w)
    ensures out.bits == old(out.bits) || fresh(out.bits)
    ensures Taken(w) == if again then wordSize - 1 else wordSize
  {
    var mask := Pow2(wordSize) - 2;
    var masked := word - word % 2;
    MaskedWord(w, word, masked);
    hide StuffedWord, Taken, BitsNum;
    var ok: bool;
    if masked == mask {
      ok := out.AppendBits(masked, wordSize);
      again := true;
    } else if masked == 0 {
      ok := out.AppendBits(masked + 1, wordSize);
      again := true;
    } else {
      ok := out.AppendBits(word, wordSize);
      again := false;
    }
  }

  /** A word of the array, ones after its end. */
  method ReadWord(bits: BitArray, at: nat, wordSize: nat) returns (word: nat)
    requires bits.Valid() && at < bits.size
    ensures word == BitsNum(NextWord(After(bits.contents, at), wordSize))
  {
    word := 0;
    ghost var w := NextWord(After(bits.contents, at), wordSize);
    for j := 0 to wordSize
      invariant word == BitsNum(w[..j]) * Pow2(wordSize - j)
    {
      var isOne := at + j >= bits.size;
      if !isOne {
        isOne := bits.Get(at + j);
      }
      assert isOne == w[j];
      WordGrows(w, j);
      if isOne {
        word := word + Pow2(wordSize - 1 - j);
      }
    }
    assert w[..wordSize] == w;
  }

  lemma WordGrows(w: seq<bool>, j: nat)
    requires j < |w|
    ensures BitsNum(w[..j + 1]) * Pow2(|w| - j - 1)
         == BitsNum(w[..j]) * Pow2(|w| - j) + (if w[j] then Pow2(|w| - 1 - j) else 0)
  {
    assert w[..j + 1][..j] == w[..j];
    var p := Pow2(|w| - j - 1);
    var x := BitsNum(w[..j]);
    assert Pow2(|w| - j) == 2 * p;
    assert (2 * x + 1) * p == x * (2 * p) + p;
    assert (2 * x) * p == x * (2 * p);
  }

  /** Masking the lowest bit leaves the bits above it. */
  lemma MaskedTop(w: seq<bool>)
    requires |w| >= 2
    ensures BitsNum(w) - BitsNum(w) % 2 == 2 * BitsNum(w[..|w| - 1])
  {
  }

  lemma BitsNumLast(top: seq<bool>, v: bool)
    ensures BitsNum(top + [v]) == 2 * BitsNum(top) + (if v then 1 else 0)
  {
    var b := top + [v];
    assert b != [] && b[..|b| - 1] == top && b[|b| - 1] == v;
  }

  lemma LastBit(top: seq<bool>, v: bool)
    ensures NumBits(BitsNum(top) * 2 + (if v then 1 else 0), |top| + 1) == top + [v]
  {
    hide NumBits, BitsNum;
    BitsNumLast(top, v);
    WriteRead(top + [v]);
  }

  /** Which case of the stuffing the masked number shows. */
  lemma MaskedCases(w: seq<bool>, masked: nat)
    requires |w| >= 2 && masked == BitsNum(w[..|w| - 1]) * 2
    ensures masked == Pow2(|w|) - 2 <==> AllBits(w[..|w| - 1], true)
    ensures masked == 0 <==> AllBits(w[..|w| - 1], false)
  {
    hide BitsNum, AllBits;
    AllOf(w[..|w| - 1]);
    assert Pow2(|w|) == 2 * Pow2(|w| - 1);
  }

  /** The tests on the number of a word, with its lowest bit masked. */
  lemma MaskedWord(w: seq<bool>, word: nat, masked: nat)
    requires |w| >= 2 && word == BitsNum(w) && masked == word - word % 2
    ensures masked == Pow2(|w|) - 2 ==> NumBits(masked, |w|) == StuffedWord(w) && Taken(w) == |w| - 1
    ensures masked != Pow2(|w|) - 2 && masked == 0 ==> NumBits(masked + 1, |w|) == StuffedWord(w) && Taken(w) == |w| - 1
    ensures masked != Pow2(|w|) - 2 && masked != 0 ==> NumBits(word, |w|) == StuffedWord(w) && Taken(w) == |w|
  {
    MaskedTop(w);
    MaskedCases(w, masked);
    hide BitsNum, NumBits, AllBits, Pow2;
    var top := w[..|w| - 1];
    if AllBits(top, true) {
      LastBit(top, false);
    } else if AllBits(top, false) {
      LastBit(top, true);
    } else {
      WriteRead(w);
    }
  }

  lemma StuffedStep(done: seq<bool>, b: seq<bool>, i: nat, t: nat)
    requires t >= 2 && i < |b|
    ensures var w := NextWord(After(b, i), t);
            done + Stuffed(After(b, i), t) == done + StuffedWord(w) + Stuffed(After(b, i + Taken(w)), t)
  {
    var w := NextWord(After(b, i), t);
    hide StuffedWord, Taken;
    assert After(After(b, i), Taken(w)) == After(b, i + Taken(w));
    assert Stuffed(After(b, i), t) == StuffedWord(w) + Stuffed(After(b, i + Taken(w)), t);
  }

  /** How many code words are stuffed, or none if one cannot be. */
  method CountStuffed(words: array<nat>, wordSize: nat) returns (r: Option<nat>)
    requires wordSize >= 2
    ensures r.None? <==> Unstuffed(words[..], wordSize).None?
    ensures r.Some? ==> |UnstuffedBits(words[..], wordSize)| == words.Length * wordSize - r.value
  {
    hide UnstuffedBits;
    var mask := Pow2(wordSize) - 1;
    var stuffed := 0;
    UnstuffedNone(wordSize);
    for u := 0 to words.Length
      invariant forall j :: 0 <= j < u ==> !Bad(words[j], wordSize)
      invariant stuffed <= u && |UnstuffedBits(words[..u], wordSize)| == u * wordSize - stuffed
    {
      if words[u] == 0 || words[u] == mask {
        assert Bad(words[..][u], wordSize);
        return None;
      }
      UnstuffedGrows(words[..], u, wordSize);
      assert words[..][..u] == words[..u] && words[..][..u + 1] == words[..u + 1];
      if words[u] == 1 || words[u] == mask - 1 {
        stuffed := stuffed + 1;
      }
    }
    assert words[..words.Length] == words[..];
    r := Some(stuffed);
  }

  lemma UnstuffedNone(t: nat)
    requires t >= 1
    ensures UnstuffedBits([], t) == []
  {
  }

  /** From the corrected code words the data bits, or none if a word cannot be. */
  method UnstuffBits(words: array<nat>, wordSize: nat) returns (r: Option<seq<bool>>)
    requires wordSize >= 2
    ensures r == Unstuffed(words[..], wordSize)
  {
    hide UnstuffedBits, UnstuffedWord;
    var stuffed := CountStuffed(words, wordSize);
    if stuffed.None? {
      return None;
    }
    var data := new bool[words.Length * wordSize - stuffed.value];
    var index := 0;
    UnstuffedNone(wordSize);
    ghost var all := words[..];
    for u := 0 to words.Length
      invariant words[..] == all
      invariant index == |UnstuffedBits(all[..u], wordSize)| <= data.Length
      invariant data[..index] == UnstuffedBits(all[..u], wordSize)
    {
      UnstuffedGrows(all, u, wordSize);
      UnstuffedPrefix(all, u + 1, wordSize);
      var n := FillWord(data, index, words[u], wordSize);
      index := index + n;
    }
    assert all[..words.Length] == all;
    assert data[..index] == data[..];
    r := Some(data[..]);
  }

  method FillWord(data: array<bool>, at: nat, word: nat, wordSize: nat) returns (n: nat)
    requires wordSize >= 2 && at + |UnstuffedWord(word, wordSize)| <= data.Length
    modifies data
    ensures n == |UnstuffedWord(word, wordSize)|
    ensures data[..at + n] == old(data[..at]) + UnstuffedWord(word, wordSize)
  {
    ghost var before := data[..at];
    if word == 1 || word == Pow2(wordSize) - 2 {
      for j := 0 to wordSize - 1
        invariant data[..at + j] == before + Repeat(word > 1, j)
      {
        data[at + j] := word > 1;
      }
      n := wordSize - 1;
    } else {
      for j := 0 to wordSize
        invariant data[..at + j] == before + NumBits(word, wordSize)[..j]
      {
        NumBitsAt(word, wordSize, wordSize - 1 - j);
        data[at + j] := BitOf(word, wordSize - 1 - j);
      }
      assert NumBits(word, wordSize)[..wordSize] == NumBits(word, wordSize);
      n := wordSize;
    }
  }

  lemma {:induction false} UnstuffedAppend(a: seq<nat>, b: seq<nat>, t: nat)
    requires t >= 1
    ensures UnstuffedBits(a + b, t) == UnstuffedBits(a, t) + UnstuffedBits(b, t)
    decreases |a|
  {
    hide UnstuffedWord;
    if a == [] {
      assert a + b == b;
    } else {
      assert (a + b)[1..] == a[1..] + b;
      UnstuffedAppend(a[1..], b, t);
    }
  }

  lemma UnstuffedGrows(words: seq<nat>, u: nat, t: nat)
    requires t >= 1 && u < |words|
    ensures UnstuffedBits(words[..u + 1], t) == UnstuffedBits(words[..u], t) + UnstuffedWord(words[u], t)
  {
    assert words[..u + 1] == words[..u] + [words[u]];
    UnstuffedAppend(words[..u], [words[u]], t);
  }

  lemma UnstuffedPrefix(words: seq<nat>, u: nat, t: nat)
    requires t >= 1 && u <= |words|
    ensures |UnstuffedBits(words[..u], t)| <= |UnstuffedBits(words, t)|
  {
    assert words == words[..u] + words[u..];
    UnstuffedAppend(words[..u], words[u..], t);
  }
}
