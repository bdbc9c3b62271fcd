/** The bits of a segment and of the filling behind it, in literal terms: the characters of
    each mode, the widths of the fields, the pad bytes, and the two worked examples of
    sections 7.4.3 and 7.4.4 of ISO/IEC 18004:2015. */
module SegmentLayout {
  import opened BitStrings
  import opened Options
  import opened Segments

  const CHARACTERS := "0123456789" + "ABCDEFGHIJKLMNOPQRSTUVWXYZ" + " $%*+-./:"

  /** The code of a character is its place in the alphabet of the mode. */
  lemma CharacterAt(k: nat)
    requires k < 45
    ensures |CHARACTERS| == 45 && CharacterOf(k) == CHARACTERS[k]
  {
    if k < 10 {
      FigureAt(k);
    } else if k < 36 {
      LetterAt(k);
    } else {
      assert k in {36, 37, 38, 39, 40, 41, 42, 43, 44};
    }
  }

  lemma FigureAt(k: nat)
    requires k < 10
    ensures CHARACTERS[k] == (k + 48) as char
  {
    assert k in {0, 1, 2, 3, 4, 5, 6, 7, 8, 9};
  }

  lemma LetterAt(k: nat)
    requires 10 <= k < 36
    ensures CHARACTERS[k] == (k + 55) as char
  {
  }

  lemma CharactersCoded(c: char)
    ensures c in CHARACTERS <==> AlphanumericCode(c) != -1
  {
    hide AlphanumericCode, CharacterOf;
    if c in CHARACTERS {
      var k :| 0 <= k < |CHARACTERS| && CHARACTERS[k] == c;
      CharacterAt(k);
      CharacterInverse(k);
    }
    if AlphanumericCode(c) != -1 {
      CodeInverse(c);
      CharacterAt(AlphanumericCode(c));
    }
  }

  /** Numeric mode for nonempty texts of digits, alphanumeric mode for the other nonempty
      texts of the 45 characters, byte mode for the rest. */
  lemma ModeChosenExactly(s: string)
    ensures ChooseMode(s) == Numeric <==> s != "" && forall i :: 0 <= i < |s| ==> '0' <= s[i] <= '9'
    ensures ChooseMode(s) == Alphanumeric
            <==> (forall i :: 0 <= i < |s| ==> s[i] in CHARACTERS) && exists i :: 0 <= i < |s| && !('0' <= s[i] <= '9')
  {
    hide AlphanumericCode, CHARACTERS;
    forall i | 0 <= i < |s|
      ensures s[i] in CHARACTERS <==> AlphanumericCode(s[i]) != -1
      ensures '0' <= s[i] <= '9' <==> IsDigit(s[i])
      ensures IsDigit(s[i]) ==> AlphanumericCode(s[i]) != -1
    {
      CharactersCoded(s[i]);
      if IsDigit(s[i]) {
        DigitCharacter(s[i]);
      }
    }
  }

  /** Table 3 of the standard: the widths of the count at the ends of the three ranges, and
      that they are constant inside. */
  lemma CountWidths(m: Mode, version: nat)
    ensures 1 <= version <= 9 ==>
              CountBits(m, version) == (match m case Numeric => 10 case Alphanumeric => 9 case _ => 8)
    ensures 10 <= version <= 26 ==>
              CountBits(m, version)
              == (match m case Numeric => 12 case Alphanumeric => 11 case ByteMode => 16 case Kanji => 10)
    ensures 27 <= version <= 40 ==>
              CountBits(m, version)
              == (match m case Numeric => 14 case Alphanumeric => 13 case ByteMode => 16 case Kanji => 12)
  {
  }

  // ---- What the reader accepts

  lemma TakenWritten(rest: seq<bool>, n: nat)
    requires n <= |rest|
    ensures rest == NumBits(BitsNum(rest[..n]), n) + rest[n..]
  {
    WriteRead(rest[..n]);
  }

  lemma DigitOf(k: nat)
    requires k < 10
    ensures IsDigit(CharacterOf(k)) && Digit(CharacterOf(k)) == k
  {
  }

  /** One triple less. */
  lemma TripleWritten(a: char, b: char, c: char, s: string, end: seq<bool>)
    requires IsDigit(a) && IsDigit(b) && IsDigit(c) && AllDigits(s)
    ensures AllDigits([a, b, c] + s)
    ensures NumericBits([a, b, c] + s) + end
            == NumBits(100 * Digit(a) + 10 * Digit(b) + Digit(c), 10) + (NumericBits(s) + end)
  {
    hide NumBits, Digit, IsDigit;
    assert ([a, b, c] + s)[3..] == s;
  }

  /** What the reader takes for digits are the bits of these digits. */
  lemma {:induction false} NumericCanonical(rest: seq<bool>, count: nat)
    requires ParseNumeric(rest, count).Some?
    ensures var (s, end) := ParseNumeric(rest, count).value;
            |s| == count && AllDigits(s) && rest == NumericBits(s) + end
    decreases count
  {
    hide NumBits, BitsNum, CharacterOf, Digit, IsDigit;
    if count >= 3 {
      TakenWritten(rest, 10);
      var v := BitsNum(rest[..10]);
      NumericCanonical(rest[10..], count - 3);
      var (s, end) := ParseNumeric(rest[10..], count - 3).value;
      ThreeDigits(v);
      TripleWritten(CharacterOf(v / 100), CharacterOf(v / 10 % 10), CharacterOf(v % 10), s, end);
    } else {
      LastDigits(rest, count);
    }
  }

  lemma ThreeDigits(v: nat)
    requires v < 1000
    ensures var a, b, c := CharacterOf(v / 100), CharacterOf(v / 10 % 10), CharacterOf(v % 10);
            IsDigit(a) && IsDigit(b) && IsDigit(c) && 100 * Digit(a) + 10 * Digit(b) + Digit(c) == v
  {
    hide CharacterOf, Digit, IsDigit;
    DigitOf(v / 100);
    DigitOf(v / 10 % 10);
    DigitOf(v % 10);
  }

  lemma LastDigits(rest: seq<bool>, count: nat)
    requires count < 3 && ParseNumeric(rest, count).Some?
    ensures var (s, end) := ParseNumeric(rest, count).value;
            |s| == count && AllDigits(s) && rest == NumericBits(s) + end
  {
    hide NumBits, BitsNum, CharacterOf, Digit, IsDigit;
    if count == 2 {
      TakenWritten(rest, 7);
      var v := BitsNum(rest[..7]);
      DigitOf(v / 10);
      DigitOf(v % 10);
    } else if count == 1 {
      TakenWritten(rest, 4);
      DigitOf(BitsNum(rest[..4]));
    } else {
      assert NumericBits([]) + rest == rest;
    }
  }

  /** The bits of some digits, and a rest. */
  ghost predicate HoldsDigits(rest: seq<bool>, count: nat) {
    exists s, end :: IsDigitPayload(rest, count, s, end)
  }

  predicate IsDigitPayload(rest: seq<bool>, count: nat, s: string, end: seq<bool>) {
    |s| == count && AllDigits(s) && rest == NumericBits(s) + end
  }

  /** The reader refuses exactly the bits that no digits have. */
  lemma NumericRefusedExactly(rest: seq<bool>, count: nat)
    ensures ParseNumeric(rest, count).Some? <==> HoldsDigits(rest, count)
  {
    hide ParseNumeric, NumericBits;
    if ParseNumeric(rest, count).Some? {
      NumericCanonical(rest, count);
      var (s, end) := ParseNumeric(rest, count).value;
      assert IsDigitPayload(rest, count, s, end);
    }
    if HoldsDigits(rest, count) {
      var s, end :| IsDigitPayload(rest, count, s, end);
      NumericRoundTrip(s, end);
    }
  }

  /** One pair less. */
  lemma PairBehind(a: char, b: char, s: string, end: seq<bool>)
    requires AlphanumericCode(a) != -1 && AlphanumericCode(b) != -1 && AllAlphanumeric(s)
    ensures AllAlphanumeric([a, b] + s) && 0 <= AlphanumericCode(a) && 0 <= AlphanumericCode(b)
    ensures AlphanumericBits([a, b] + s) + end
            == NumBits(45 * AlphanumericCode(a) + AlphanumericCode(b), 11) + (AlphanumericBits(s) + end)
  {
    hide NumBits, AlphanumericCode, AlphanumericBits;
    CodeInverse(a);
    CodeInverse(b);
    assert ([a, b] + s)[2..] == s;
    PairWritten([a, b] + s);
  }

  /** What the reader takes for characters are the bits of these characters. */
  lemma {:induction false} AlphanumericCanonical(rest: seq<bool>, count: nat)
    requires ParseAlphanumeric(rest, count).Some?
    ensures var (s, end) := ParseAlphanumeric(rest, count).value;
            |s| == count && AllAlphanumeric(s) && rest == AlphanumericBits(s) + end
    decreases count
  {
    hide NumBits, BitsNum, CharacterOf, AlphanumericCode, AlphanumericBits;
    if count >= 2 {
      TakenWritten(rest, 11);
      var v := BitsNum(rest[..11]);
      AlphanumericCanonical(rest[11..], count - 2);
      var (s, end) := ParseAlphanumeric(rest[11..], count - 2).value;
      CharacterInverse(v / 45);
      CharacterInverse(v % 45);
      PairBehind(CharacterOf(v / 45), CharacterOf(v % 45), s, end);
    } else if count == 1 {
      TakenWritten(rest, 6);
      CharacterInverse(BitsNum(rest[..6]));
      OneWritten(CharacterOf(BitsNum(rest[..6])));
    } else {
      NoneWritten(rest);
    }
  }

  lemma NoneWritten(rest: seq<bool>)
    ensures AlphanumericBits([]) + rest == rest
  {
    assert AlphanumericBits([]) == [];
  }

  ghost predicate HoldsCharacters(rest: seq<bool>, count: nat) {
    exists s, end :: IsCharacterPayload(rest, count, s, end)
  }

  predicate IsCharacterPayload(rest: seq<bool>, count: nat, s: string, end: seq<bool>) {
    |s| == count && AllAlphanumeric(s) && rest == AlphanumericBits(s) + end
  }

  lemma AlphanumericRefusedExactly(rest: seq<bool>, count: nat)
    ensures ParseAlphanumeric(rest, count).Some? <==> HoldsCharacters(rest, count)
  {
    hide ParseAlphanumeric, AlphanumericBits, AlphanumericCode;
    if ParseAlphanumeric(rest, count).Some? {
      AlphanumericCanonical(rest, count);
      var (s, end) := ParseAlphanumeric(rest, count).value;
      assert IsCharacterPayload(rest, count, s, end);
    }
    if HoldsCharacters(rest, count) {
      var s, end :| IsCharacterPayload(rest, count, s, end);
      AlphanumericRoundTrip(s, end);
    }
  }

  /** What the reader makes of the modes that are neither digits nor characters: the terminator,
      the seven modes whose text is open, and the six that do not exist. */
  lemma OtherModes(mode: nat, rest: seq<bool>, version: nat, text: string)
    requires mode < 16 && mode != 1 && mode != 2
    ensures ParseSegments(NumBits(mode, 4) + rest, version, text)
            == if mode == 0 then Text(text)
               else if mode == 6 || mode == 10 || mode == 11 || mode == 12 || mode >= 14 then Malformed
               else Foreign
  {
    hide NumBits, Take;
    assert Pow2(4) == 16;
    TakeWritten(mode, 4, rest);
  }

  // ---- The filling

  /** One of the two pad bytes, 0xEC first. */
  predicate IsPad(byte: seq<bool>, j: nat) {
    byte == if j % 2 == 0 then [true, true, true, false, true, true, false, false]
            else [false, false, false, true, false, false, false, true]
  }

  lemma PadBytes()
    ensures IsPad(NumBits(236, 8), 0) && IsPad(NumBits(17, 8), 1)
  {
    hide NumBits;
    FirstPad();
    SecondPad();
  }

  lemma FirstPad()
    ensures NumBits(236, 8) == [true, true, true, false, true, true, false, false]
  {
  }

  lemma SecondPad()
    ensures NumBits(17, 8) == [false, false, false, true, false, false, false, true]
  {
  }

  lemma {:induction false} PadAt(i: nat, n: nat, j: nat)
    requires i <= j < n
    ensures |PadBits(i, n)| == 8 * (n - i)
    ensures IsPad(PadBits(i, n)[8 * (j - i)..8 * (j - i) + 8], j)
    decreases n - i
  {
    hide NumBits, IsPad;
    PadLen(i, n);
    var first := NumBits(if i % 2 == 0 then 236 else 17, 8);
    var rest := PadBits(i + 1, n);
    assert PadBits(i, n) == first + rest;
    if j == i {
      assert PadBits(i, n)[..8] == first;
      PadIs(i);
    } else {
      PadAt(i + 1, n, j);
      assert PadBits(i, n)[8 * (j - i)..8 * (j - i) + 8] == rest[8 * (j - i - 1)..8 * (j - i - 1) + 8];
    }
  }

  lemma PadIs(i: nat)
    ensures IsPad(NumBits(if i % 2 == 0 then 236 else 17, 8), i)
  {
    hide NumBits;
    PadBytes();
  }

  /** The j-th pad byte stands in its place, the pad bytes starting with byte k. */
  predicate PadStands(r: seq<bool>, k: nat, j: nat) {
    8 * (k + j) + 8 <= |r| && IsPad(r[8 * (k + j)..8 * (k + j) + 8], j)
  }

  /** What stands behind the bits: zeros up to the end of the byte in which a terminator of
      four zeros ends, or to the end of the symbol, and then the two pad bytes in turn. */
  predicate IsFilled(b: seq<bool>, capacity: nat, r: seq<bool>) {
    && |r| == 8 * capacity && b <= r
    && var k := (|b| + 4 + 7) / 8;
       && (forall i :: |b| <= i < 8 * k && i < |r| ==> !r[i])
       && (forall j :: 0 <= j < capacity - k ==> PadStands(r, k, j))
  }

  lemma Filling(b: seq<bool>, capacity: nat)
    requires |b| <= 8 * capacity
    ensures Terminate(b, capacity).Some? && IsFilled(b, capacity, Terminate(b, capacity).value)
  {
    hide PadBits, IsPad, PadStands;
    var z := Repeat(false, if 8 * capacity - |b| < 4 then 8 * capacity - |b| else 4);
    var t := b + z;
    var y := Repeat(false, (8 - |t| % 8) % 8);
    ByteAligned(|t|, capacity);
    var u := t + y;
    var n := capacity - |u| / 8;
    PadLen(0, n);
    var r := Terminate(b, capacity).value;
    assert r == u + PadBits(0, n);
    var k := (|b| + 4 + 7) / 8;
    Ends(|b|, |z|, |y|, capacity);
    assert b <= r;
    assert forall i :: |b| <= i < |u| ==> !u[i];
    if k <= capacity {
      forall j | 0 <= j < capacity - k ensures PadStands(r, k, j) {
        PadStandsAt(u, k, capacity, j);
      }
    }
  }

  lemma PadStandsAt(u: seq<bool>, k: nat, capacity: nat, j: nat)
    requires |u| == 8 * k && k <= capacity && j < capacity - k
    ensures PadStands(u + PadBits(0, capacity - k), k, j)
  {
    hide PadBits, IsPad;
    var pads := PadBits(0, capacity - k);
    PadAt(0, capacity - k, j);
    assert (u + pads)[8 * (k + j)..8 * (k + j) + 8] == pads[8 * j..8 * j + 8];
  }

  lemma Ends(n: nat, z: nat, y: nat, capacity: nat)
    requires n <= 8 * capacity
    requires z == if 8 * capacity - n < 4 then 8 * capacity - n else 4
    requires y == (8 - (n + z) % 8) % 8
    ensures var k := (n + 4 + 7) / 8;
            n + z + y == if k <= capacity then 8 * k else 8 * capacity
  {
  }

  // ---- The worked examples

  /** 01234567 in version 1: mode 0001, count 8, then 012, 345 and 67. */
  lemma DigitsExample()
    ensures ChooseMode("01234567") == Numeric
    ensures SegmentBits("01234567", 1)
            == NumBits(1, 4) + NumBits(8, 10) + (NumBits(12, 10) + (NumBits(345, 10) + NumBits(67, 7)))
  {
    hide NumBits;
    var s := "01234567";
    assert AllDigits(s);
    ModeChosenExactly(s);
    assert s[3..] == "34567" && s[3..][3..] == "67";
    assert NumericBits("67") == NumBits(67, 7);
    assert NumericBits("34567") == NumBits(345, 10) + NumericBits("67");
    assert NumericBits(s) == NumBits(12, 10) + NumericBits("34567");
  }

  /** AC-42 in version 1: mode 0010, count 5, then AC, -4 and 2. */
  lemma CharactersExample()
    ensures ChooseMode("AC-42") == Alphanumeric
    ensures SegmentBits("AC-42", 1)
            == NumBits(2, 4) + NumBits(5, 9) + (NumBits(462, 11) + (NumBits(1849, 11) + NumBits(2, 6)))
  {
    hide NumBits, ChooseMode, AlphanumericBits, AlphanumericCode, CHARACTERS;
    var s := "AC-42";
    ExampleCodes();
    forall i | 0 <= i < |s| ensures s[i] in CHARACTERS && AlphanumericCode(s[i]) != -1 {
      CharactersCoded(s[i]);
    }
    assert !('0' <= s[0] <= '9');
    ModeChosenExactly(s);
    assert s[2..] == "-42" && s[2..][2..] == "2";
    PairWritten(s);
    PairWritten("-42");
    OneWritten('2');
  }

  lemma ExampleCodes()
    ensures AlphanumericCode('A') == 10 && AlphanumericCode('C') == 12 && AlphanumericCode('-') == 41
    ensures AlphanumericCode('4') == 4 && AlphanumericCode('2') == 2
  {
  }

  lemma PairWritten(s: string)
    requires AllAlphanumeric(s) && |s| >= 2
    ensures 0 <= AlphanumericCode(s[0]) && 0 <= AlphanumericCode(s[1])
    ensures AlphanumericBits(s)
            == NumBits(45 * AlphanumericCode(s[0]) + AlphanumericCode(s[1]), 11) + AlphanumericBits(s[2..])
  {
    hide NumBits, AlphanumericCode;
    CodesValid(s);
  }

  lemma OneWritten(c: char)
    requires AlphanumericCode(c) != -1
    ensures 0 <= AlphanumericCode(c) && AlphanumericBits([c]) == NumBits(AlphanumericCode(c), 6)
  {
    hide NumBits, AlphanumericCode;
    CodeInverse(c);
    assert AllAlphanumeric([c]);
  }
}
