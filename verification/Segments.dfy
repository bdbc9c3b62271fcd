/** Segments of a QR symbol: mode indicator, character count and payload (section 7.4 of
    ISO/IEC 18004:2015), as the writer lays them out and as the reader takes them apart. */
module Segments {
  import opened BitStrings
  import opened Options

  /** The modes the writer chooses from. */
  datatype Mode = Numeric | Alphanumeric | ByteMode | Kanji

  function ModeBits(m: Mode): nat {
    match m case Numeric => 1 case Alphanumeric => 2 case ByteMode => 4 case Kanji => 8
  }

  /** The width of the count field, in the three ranges of versions. */
  function CountBits(m: Mode, version: nat): (n: nat)
    ensures 8 <= n <= 16
  {
    var widths := match m
      case Numeric => [10, 12, 14]
      case Alphanumeric => [9, 11, 13]
      case ByteMode => [8, 16, 16]
      case Kanji => [8, 10, 12];
    widths[if version <= 9 then 0 else if version <= 26 then 1 else 2]
  }

  // ---- Characters

  /** The writer's table, indexed by character code. */
  function CodeOf(c: int): int {
    if 48 <= c <= 57 then c - 48
    else if 65 <= c <= 90 then c - 55
    else match c
      case 32 => 36 case 36 => 37 case 37 => 38 case 42 => 39 case 43 => 40
      case 45 => 41 case 46 => 42 case 47 => 43 case 58 => 44
      case _ => -1
  }

  function AlphanumericCode(c: char): int {
    CodeOf(c as int)
  }

  predicate IsDigit(c: char) {
    0 <= c as int - 48 <= 9
  }

  function Digit(c: char): nat
    requires IsDigit(c)
  {
    c as int - 48
  }

  /** The reader's table; it throws for other codes. */
  function CharacterOf(k: nat): char
    requires k < 45
  {
    if k < 10 then (k + 48) as char
    else if k < 36 then (k + 55) as char
    else match k
      case 36 => ' ' case 37 => '$' case 38 => '%' case 39 => '*' case 40 => '+'
      case 41 => '-' case 42 => '.' case 43 => '/' case _ => ':'
  }

  predicate AllDigits(s: string) {
    forall i :: 0 <= i < |s| ==> IsDigit(s[i])
  }

  predicate AllAlphanumeric(s: string) {
    forall i :: 0 <= i < |s| ==> AlphanumericCode(s[i]) != -1
  }

  /** The two tables agree. */
  lemma CodeInverse(c: char)
    requires AlphanumericCode(c) != -1
    ensures 0 <= AlphanumericCode(c) < 45 && CharacterOf(AlphanumericCode(c)) == c
  {
  }

  lemma CharacterInverse(k: nat)
    requires k < 45
    ensures AlphanumericCode(CharacterOf(k)) == k
  {
  }

  lemma DigitCharacter(c: char)
    requires IsDigit(c)
    ensures CharacterOf(Digit(c)) == c && AlphanumericCode(c) == Digit(c)
  {
  }

  // ---- Writing

  function NumericBits(s: string): seq<bool>
    requires AllDigits(s)
  {
    if |s| >= 3 then
      NumBits(100 * Digit(s[0]) + 10 * Digit(s[1]) + Digit(s[2]), 10) + NumericBits(s[3..])
    else if |s| == 2 then NumBits(10 * Digit(s[0]) + Digit(s[1]), 7)
    else if |s| == 1 then NumBits(Digit(s[0]), 4)
    else []
  }

  function AlphanumericBits(s: string): seq<bool>
    requires AllAlphanumeric(s)
  {
    CodesValid(s);
    if |s| >= 2 then
      NumBits(45 * AlphanumericCode(s[0]) + AlphanumericCode(s[1]), 11) + AlphanumericBits(s[2..])
    else if |s| == 1 then NumBits(AlphanumericCode(s[0]), 6)
    else []
  }

  lemma CodesValid(s: string)
    requires AllAlphanumeric(s)
    ensures forall i :: 0 <= i < |s| ==> 0 <= AlphanumericCode(s[i]) < 45
  {
    forall i | 0 <= i < |s| ensures 0 <= AlphanumericCode(s[i]) < 45 {
      CodeInverse(s[i]);
    }
  }

  /** The writer's choice between the modes; anything else, the empty text included, goes to
      byte mode. */
  function ChooseMode(s: string): Mode {
    if AllAlphanumeric(s) && s != [] then (if AllDigits(s) then Numeric else Alphanumeric) else ByteMode
  }

  /** The payload in the chosen mode. */
  function PayloadBits(s: string): seq<bool>
    requires ChooseMode(s) != ByteMode
  {
    if ChooseMode(s) == Numeric then NumericBits(s) else AlphanumericBits(s)
  }

  function SegmentBits(s: string, version: nat): seq<bool>
    requires ChooseMode(s) != ByteMode
  {
    var m := ChooseMode(s);
    NumBits(ModeBits(m), 4) + NumBits(|s|, CountBits(m, version)) + PayloadBits(s)
  }

  /** The pad bytes that fill the symbol, from the i-th on. */
  function PadBits(i: nat, n: nat): seq<bool>
    requires i <= n
    decreases n - i
  {
    if i == n then [] else NumBits(if i % 2 == 0 then 236 else 17, 8) + PadBits(i + 1, n)
  }

  lemma {:induction false} PadLen(i: nat, n: nat)
    requires i <= n
    ensures |PadBits(i, n)| == 8 * (n - i)
    decreases n - i
  {
    if i < n {
      PadLen(i + 1, n);
    }
  }

  /** Terminator of up to four zeros, zeros up to a whole byte, pad bytes.  Fails when the
      bits exceed the capacity of the symbol. */
  function Terminate(b: seq<bool>, capacity: nat): Option<seq<bool>> {
    if |b| > 8 * capacity then None else
    var t := b + Repeat(false, if 8 * capacity - |b| < 4 then 8 * capacity - |b| else 4);
    var u := t + Repeat(false, (8 - |t| % 8) % 8);
    Some(u + if |u| / 8 <= capacity then PadBits(0, capacity - |u| / 8) else [])
  }

  /** Whatever fits is filled up to exactly the capacity; the first bits stay and the next
      are zeros, four of them unless the symbol ends before. */
  lemma TerminateFills(b: seq<bool>, capacity: nat)
    ensures Terminate(b, capacity).Some? <==> |b| <= 8 * capacity
    ensures Terminate(b, capacity).Some? ==>
              var r := Terminate(b, capacity).value;
              && |r| == 8 * capacity && b <= r
              && forall i :: |b| <= i < |b| + 4 && i < |r| ==> !r[i]
  {
    hide PadBits;
    if |b| <= 8 * capacity {
      var z := Repeat(false, if 8 * capacity - |b| < 4 then 8 * capacity - |b| else 4);
      var t := b + z;
      var y := Repeat(false, (8 - |t| % 8) % 8);
      ByteAligned(|t|, capacity);
      var u := t + y;
      var pads := PadBits(0, capacity - |u| / 8);
      PadLen(0, capacity - |u| / 8);
      var r := Terminate(b, capacity).value;
      assert r == (b + z) + (y + pads);
      assert |z| < 4 ==> |r| == |b| + |z|;
    }
  }

  lemma ByteAligned(n: nat, capacity: nat)
    requires n <= 8 * capacity
    ensures var m := n + (8 - n % 8) % 8;
            m % 8 == 0 && m <= 8 * capacity && m / 8 <= capacity && 8 * (m / 8) == m
  {
  }

  // ---- Reading

  /** A number taken off the front, if there are enough bits. */
  function Take(rest: seq<bool>, n: nat): Option<(nat, seq<bool>)> {
    if n <= |rest| then Some((BitsNum(rest[..n]), rest[n..])) else None
  }

  lemma TakeWritten(v: nat, n: nat, rest: seq<bool>)
    requires v < Pow2(n)
    ensures Take(NumBits(v, n) + rest, n) == Some((v, rest))
  {
    var b := NumBits(v, n) + rest;
    assert b[..n] == NumBits(v, n) && b[n..] == rest;
    ReadWritten(v, n);
  }

  function ParseNumeric(rest: seq<bool>, count: nat): (r: Option<(string, seq<bool>)>)
    ensures r.Some? ==> |r.value.0| == count && |r.value.1| <= |rest|
  {
    if count >= 3 then
      match Take(rest, 10)
      case None => None
      case Some((v, rest')) =>
        if v >= 1000 then None else
        match ParseNumeric(rest', count - 3)
        case None => None
        case Some((s, end)) =>
          Some(([CharacterOf(v / 100), CharacterOf(v / 10 % 10), CharacterOf(v % 10)] + s, end))
    else if count == 2 then
      match Take(rest, 7)
      case None => None
      case Some((v, end)) =>
        if v >= 100 then None else Some(([CharacterOf(v / 10), CharacterOf(v % 10)], end))
    else if count == 1 then
      match Take(rest, 4)
      case None => None
      case Some((v, end)) => if v >= 10 then None else Some(([CharacterOf(v)], end))
    else Some(([], rest))
  }

  function ParseAlphanumeric(rest: seq<bool>, count: nat): (r: Option<(string, seq<bool>)>)
    ensures r.Some? ==> |r.value.0| == count && |r.value.1| <= |rest|
  {
    if count >= 2 then
      match Take(rest, 11)
      case None => None
      case Some((v, rest')) =>
        if v >= 2025 then None else
        match ParseAlphanumeric(rest', count - 2)
        case None => None
        case Some((s, end)) => Some(([CharacterOf(v / 45), CharacterOf(v % 45)] + s, end))
    else if count == 1 then
      match Take(rest, 6)
      case None => None
      case Some((v, end)) => if v >= 45 then None else Some(([CharacterOf(v)], end))
    else Some(([], rest))
  }

  /** The text, a format failure, or a segment of a kind whose text this model leaves open. */
  datatype Parsed = Text(text: string) | Malformed | Foreign

  /** The reader's loop over segments. */
  function ParseSegments(rest: seq<bool>, version: nat, text: string): Parsed
    decreases |rest|
  {
    match Take(rest, 4)
    case None => Text(text)
    case Some((mode, afterMode)) =>
      if mode == 0 then Text(text)
      else if mode == 1 || mode == 2 then
        var m := if mode == 1 then Numeric else Alphanumeric;
        match Take(afterMode, CountBits(m, version))
        case None => Malformed
        case Some((count, payload)) =>
          var parsed := if m == Numeric then ParseNumeric(payload, count) else ParseAlphanumeric(payload, count);
          match parsed
          case None => Malformed
          case Some((s, end)) => ParseSegments(end, version, text + s)
      else if mode in {3, 4, 5, 7, 8, 9, 13} then Foreign
      else Malformed
  }

  lemma {:induction false} NumericLen(s: string)
    requires AllDigits(s)
    ensures |NumericBits(s)| == 10 * (|s| / 3) + (if |s| % 3 == 0 then 0 else if |s| % 3 == 1 then 4 else 7)
    decreases |s|
  {
    if |s| >= 3 {
      NumericLen(s[3..]);
      assert |s| / 3 == |s[3..]| / 3 + 1 && |s| % 3 == |s[3..]| % 3;
    }
  }

  lemma {:induction false} AlphanumericLen(s: string)
    requires AllAlphanumeric(s)
    ensures |AlphanumericBits(s)| == 11 * (|s| / 2) + 6 * (|s| % 2)
    decreases |s|
  {
    hide AlphanumericCode;
    if |s| >= 2 {
      AlphanumericLen(s[2..]);
      assert |s| / 2 == |s[2..]| / 2 + 1 && |s| % 2 == |s[2..]| % 2;
    }
  }

  // ---- What is written is read

  /** Three digits taken off. */
  lemma NumericTriple(a: nat, b: nat, c: nat, tail: seq<bool>, n: nat, s: string, rest: seq<bool>)
    requires a < 10 && b < 10 && c < 10
    requires ParseNumeric(tail, n) == Some((s, rest))
    ensures ParseNumeric(NumBits(100 * a + 10 * b + c, 10) + tail, n + 3)
            == Some(([CharacterOf(a), CharacterOf(b), CharacterOf(c)] + s, rest))
  {
    hide NumBits, CharacterOf, Take, ParseNumeric, Pow2;
    var v := 100 * a + 10 * b + c;
    TenBits();
    TakeWritten(v, 10, tail);
    DigitsOf(a, b, c);
    ParsedTriple(NumBits(v, 10) + tail, n, v, tail, s, rest);
  }

  lemma TenBits()
    ensures Pow2(10) == 1024
  {
  }

  lemma DigitsOf(a: nat, b: nat, c: nat)
    requires a < 10 && b < 10 && c < 10
    ensures var v := 100 * a + 10 * b + c;
            v < 1000 && v / 100 == a && v / 10 % 10 == b && v % 10 == c
  {
  }

  lemma ParsedTriple(bits: seq<bool>, n: nat, v: nat, tail: seq<bool>, s: string, rest: seq<bool>)
    requires Take(bits, 10) == Some((v, tail)) && v < 1000 && ParseNumeric(tail, n) == Some((s, rest))
    ensures ParseNumeric(bits, n + 3)
            == Some(([CharacterOf(v / 100), CharacterOf(v / 10 % 10), CharacterOf(v % 10)] + s, rest))
  {
    hide CharacterOf, Take;
  }

  lemma {:induction false} NumericRoundTrip(s: string, rest: seq<bool>)
    requires AllDigits(s)
    ensures ParseNumeric(NumericBits(s) + rest, |s|) == Some((s, rest))
    decreases |s|
  {
    hide NumBits, CharacterOf, Take;
    if |s| >= 3 {
      var tail := NumericBits(s[3..]) + rest;
      NumericRoundTrip(s[3..], rest);
      NumericTriple(Digit(s[0]), Digit(s[1]), Digit(s[2]), tail, |s| - 3, s[3..], rest);
      assert NumericBits(s) + rest == NumBits(100 * Digit(s[0]) + 10 * Digit(s[1]) + Digit(s[2]), 10) + tail;
      DigitCharacter(s[0]);
      DigitCharacter(s[1]);
      DigitCharacter(s[2]);
      assert s == [s[0], s[1], s[2]] + s[3..];
    } else if |s| == 2 {
      var v := 10 * Digit(s[0]) + Digit(s[1]);
      assert Pow2(7) == 128;
      TakeWritten(v, 7, rest);
      assert v / 10 == Digit(s[0]) && v % 10 == Digit(s[1]);
      assert s == [s[0], s[1]];
      DigitCharacter(s[0]);
      DigitCharacter(s[1]);
    } else if |s| == 1 {
      assert Pow2(4) == 16;
      TakeWritten(Digit(s[0]), 4, rest);
      DigitCharacter(s[0]);
      assert s == [s[0]];
    } else {
      assert NumericBits(s) + rest == rest;
    }
  }

  /** Two characters taken off. */
  lemma AlphanumericPair(a: nat, b: nat, tail: seq<bool>, n: nat, s: string, rest: seq<bool>)
    requires a < 45 && b < 45
    requires ParseAlphanumeric(tail, n) == Some((s, rest))
    ensures ParseAlphanumeric(NumBits(45 * a + b, 11) + tail, n + 2)
            == Some(([CharacterOf(a), CharacterOf(b)] + s, rest))
  {
    hide NumBits, CharacterOf, Take;
    var v := 45 * a + b;
    assert Pow2(11) == 2048;
    TakeWritten(v, 11, tail);
    assert v / 45 == a && v % 45 == b;
  }

  lemma {:induction false} AlphanumericRoundTrip(s: string, rest: seq<bool>)
    requires AllAlphanumeric(s)
    ensures ParseAlphanumeric(AlphanumericBits(s) + rest, |s|) == Some((s, rest))
    decreases |s|
  {
    hide NumBits, CharacterOf, Take, AlphanumericCode;
    CodesValid(s);
    if |s| >= 2 {
      var a, b := AlphanumericCode(s[0]), AlphanumericCode(s[1]);
      var tail := AlphanumericBits(s[2..]) + rest;
      AlphanumericRoundTrip(s[2..], rest);
      AlphanumericPair(a, b, tail, |s| - 2, s[2..], rest);
      assert AlphanumericBits(s) + rest == NumBits(45 * a + b, 11) + tail;
      CodeInverse(s[0]);
      CodeInverse(s[1]);
      assert s == [s[0], s[1]] + s[2..];
    } else if |s| == 1 {
      assert Pow2(6) == 64;
      TakeWritten(AlphanumericCode(s[0]), 6, rest);
      CodeInverse(s[0]);
      assert s == [s[0]];
    } else {
      assert AlphanumericBits(s) + rest == rest;
    }
  }

  lemma {:induction false} ZerosAreZero(b: seq<bool>)
    requires forall i :: 0 <= i < |b| ==> !b[i]
    ensures BitsNum(b) == 0
    decreases |b|
  {
    if b != [] {
      ZerosAreZero(b[..|b| - 1]);
    }
  }

  /** The reader stops at the terminator, also at one cut short by the end of the symbol. */
  lemma StopsAtTerminator(rest: seq<bool>, version: nat, text: string)
    requires forall i :: 0 <= i < 4 && i < |rest| ==> !rest[i]
    ensures ParseSegments(rest, version, text) == Text(text)
  {
    if |rest| >= 4 {
      ZerosAreZero(rest[..4]);
    }
  }

  // ---- Several segments

  /** A text that can be written as one segment of a version: its mode is one of digits or
      characters and its count fits the field. */
  predicate IsPart(s: string, version: nat) {
    ChooseMode(s) != ByteMode && |s| < Pow2(CountBits(ChooseMode(s), version))
  }

  predicate AllParts(parts: seq<string>, version: nat) {
    forall i :: 0 <= i < |parts| ==> IsPart(parts[i], version)
  }

  /** The segments of the parts, one behind the other. */
  function PartsBits(parts: seq<string>, version: nat): seq<bool>
    requires AllParts(parts, version)
  {
    if parts == [] then [] else SegmentBits(parts[0], version) + PartsBits(parts[1..], version)
  }

  function Concat(parts: seq<string>): string {
    if parts == [] then "" else parts[0] + Concat(parts[1..])
  }

  /** The reader takes one segment off, whatever was read before and whatever follows. */
  lemma SegmentParsed(s: string, rest: seq<bool>, version: nat, text: string)
    requires IsPart(s, version)
    ensures ParseSegments(SegmentBits(s, version) + rest, version, text) == ParseSegments(rest, version, text + s)
  {
    hide ParseNumeric, ParseAlphanumeric, NumericBits, AlphanumericBits, CountBits, ChooseMode, Take, NumBits;
    var m := ChooseMode(s);
    var n := CountBits(m, version);
    var payload := PayloadBits(s) + rest;
    var afterMode := NumBits(|s|, n) + payload;
    assert SegmentBits(s, version) + rest == NumBits(ModeBits(m), 4) + afterMode;
    assert Pow2(4) == 16;
    TakeWritten(ModeBits(m), 4, afterMode);
    TakeWritten(|s|, n, payload);
    ModeChosen(s);
    if m == Numeric {
      NumericRoundTrip(s, rest);
    } else {
      AlphanumericRoundTrip(s, rest);
    }
  }

  /** All segments are taken off in turn and their texts joined in order. */
  lemma {:induction false} PartsParsed(parts: seq<string>, rest: seq<bool>, version: nat, text: string)
    requires AllParts(parts, version)
    ensures ParseSegments(PartsBits(parts, version) + rest, version, text)
            == ParseSegments(rest, version, text + Concat(parts))
    decreases |parts|
  {
    hide ParseSegments, SegmentBits;
    if parts == [] {
      assert PartsBits(parts, version) + rest == rest;
      assert text + Concat(parts) == text;
    } else {
      var after := PartsBits(parts[1..], version) + rest;
      assert PartsBits(parts, version) + rest == SegmentBits(parts[0], version) + after;
      SegmentParsed(parts[0], after, version, text);
      PartsParsed(parts[1..], rest, version, text + parts[0]);
      assert text + parts[0] + Concat(parts[1..]) == text + Concat(parts);
    }
  }

  /** Bits that hold the segments of the parts and then a terminator, which the end of the
      bits may cut short. */
  predicate HoldsParts(bits: seq<bool>, parts: seq<string>, version: nat) {
    && AllParts(parts, version)
    && var b := PartsBits(parts, version);
       b <= bits && forall i :: |b| <= i < |b| + 4 && i < |bits| ==> !bits[i]
  }

  /** Any list of segments reads as the parts joined. */
  lemma PartsRead(bits: seq<bool>, parts: seq<string>, version: nat)
    requires HoldsParts(bits, parts, version)
    ensures ParseSegments(bits, version, "") == Text(Concat(parts))
  {
    hide ParseSegments, IsPart, PartsBits;
    var b := PartsBits(parts, version);
    var rest := bits[|b|..];
    assert bits == b + rest;
    PartsParsed(parts, rest, version, "");
    assert "" + Concat(parts) == Concat(parts);
    StopsAtTerminator(rest, version, Concat(parts));
  }

  /** A text that fits the symbol and the count field comes back from the terminated bits. */
  lemma SegmentRoundTrip(s: string, version: nat, capacity: nat)
    requires ChooseMode(s) != ByteMode
    requires |SegmentBits(s, version)| <= 8 * capacity
    requires |s| < Pow2(CountBits(ChooseMode(s), version))
    ensures Terminate(SegmentBits(s, version), capacity).Some?
    ensures ParseSegments(Terminate(SegmentBits(s, version), capacity).value, version, "") == Text(s)
  {
    hide ParseSegments, SegmentBits, Terminate, ChooseMode;
    var b := SegmentBits(s, version);
    TerminateFills(b, capacity);
    assert PartsBits([s], version) == b + PartsBits([], version) == b;
    assert Concat([s]) == s + Concat([]) == s;
    PartsRead(Terminate(b, capacity).value, [s], version);
  }

  lemma ModeChosen(s: string)
    ensures ChooseMode(s) in {Numeric, Alphanumeric, ByteMode}
    ensures ChooseMode(s) == Numeric ==> AllDigits(s)
    ensures ChooseMode(s) == Alphanumeric ==> AllAlphanumeric(s)
  {
  }
}
