/** The reader's loops: segments of digits and characters out of a bit source. */
module SegmentReading {
  import opened BitSources
  import opened BitStrings
  import opened Options
  import opened Segments

  /** A number of the given width off the front, if there are bits enough. */
  method ReadNumber(source: BitSource, n: nat) returns (v: nat)
    requires source.Valid() && 1 <= n <= 16 && n <= |source.Rest()|
    modifies source
    ensures source.Valid() && Take(old(source.Rest()), n) == Some((v, source.Rest()))
  {
    hide BitsNum, Int32;
    ghost var rest := source.Rest();
    NoOverflow(rest[..n]);
    var r := source.ReadBits(n);
    v := r.value;
  }

  /** What was read before, in front of what follows. */
  function Joined(before: string, r: Option<(string, seq<bool>)>): Option<(string, seq<bool>)> {
    match r case None => None case Some((s, end)) => Some((before + s, end))
  }

  lemma JoinedNothing(r: Option<(string, seq<bool>)>)
    ensures Joined("", r) == r
  {
    if r.Some? {
      assert "" + r.value.0 == r.value.0;
    }
  }

  lemma JoinedTwice(a: string, b: string, r: Option<(string, seq<bool>)>)
    ensures Joined(a, Joined(b, r)) == Joined(a + b, r)
  {
    if r.Some? {
      assert a + (b + r.value.0) == a + b + r.value.0;
    }
  }

  /** Triples of digits, then a pair or a single one. */
  method DecodeNumericSegment(source: BitSource, count: nat) returns (text: Option<string>)
    requires source.Valid()
    modifies source
    ensures source.Valid()
    ensures text.None? ==> ParseNumeric(old(source.Rest()), count) == None
    ensures text.Some? ==> ParseNumeric(old(source.Rest()), count) == Some((text.value, source.Rest()))
  {
    hide CharacterOf, Joined;
    ghost var rest0 := source.Rest();
    var n: nat := count;
    var result := "";
    JoinedNothing(ParseNumeric(rest0, n));
    while n >= 3
      invariant source.Valid()
      invariant Joined(result, ParseNumeric(source.Rest(), n)) == ParseNumeric(rest0, count)
    {
      ghost var rest := source.Rest();
      var available := source.Available();
      if available < 10 {
        Failed(result);
        return None;
      }
      var threeDigits := ReadNumber(source, 10);
      if threeDigits >= 1000 {
        Failed(result);
        return None;
      }
      var digits := [CharacterOf(threeDigits / 100), CharacterOf(threeDigits / 10 % 10), CharacterOf(threeDigits % 10)];
      NumericStep(rest, n, threeDigits, source.Rest());
      JoinedTwice(result, digits, ParseNumeric(source.Rest(), n - 3));
      result := result + digits;
      n := n - 3;
    }
    ghost var last := source.Rest();
    var tail := "";
    if n == 2 {
      var available := source.Available();
      if available < 7 {
        Failed(result);
        return None;
      }
      var twoDigits := ReadNumber(source, 7);
      if twoDigits >= 100 {
        Failed(result);
        return None;
      }
      tail := [CharacterOf(twoDigits / 10), CharacterOf(twoDigits % 10)];
    } else if n == 1 {
      var available := source.Available();
      if available < 4 {
        Failed(result);
        return None;
      }
      var digit := ReadNumber(source, 4);
      if digit >= 10 {
        Failed(result);
        return None;
      }
      tail := [CharacterOf(digit)];
    }
    assert ParseNumeric(last, n) == Some((tail, source.Rest()));
    Succeeded(result, tail, source.Rest());
    text := Some(result + tail);
  }

  lemma Failed(before: string)
    ensures Joined(before, None) == None
  {
  }

  lemma Succeeded(before: string, s: string, rest: seq<bool>)
    ensures Joined(before, Some((s, rest))) == Some((before + s, rest))
  {
  }

  lemma NumericStep(rest: seq<bool>, n: nat, v: nat, rest': seq<bool>)
    requires n >= 3 && Take(rest, 10) == Some((v, rest')) && v < 1000
    ensures ParseNumeric(rest, n)
            == Joined([CharacterOf(v / 100), CharacterOf(v / 10 % 10), CharacterOf(v % 10)], ParseNumeric(rest', n - 3))
  {
    hide CharacterOf, Take;
  }

  lemma AlphanumericStep(rest: seq<bool>, n: nat, v: nat, rest': seq<bool>)
    requires n >= 2 && Take(rest, 11) == Some((v, rest')) && v < 2025
    ensures ParseAlphanumeric(rest, n) == Joined([CharacterOf(v / 45), CharacterOf(v % 45)], ParseAlphanumeric(rest', n - 2))
  {
    hide CharacterOf, Take;
  }

  /** Pairs of characters, then a single one. */
  method DecodeAlphanumericSegment(source: BitSource, count: nat) returns (text: Option<string>)
    requires source.Valid()
    modifies source
    ensures source.Valid()
    ensures text.None? ==> ParseAlphanumeric(old(source.Rest()), count) == None
    ensures text.Some? ==> ParseAlphanumeric(old(source.Rest()), count) == Some((text.value, source.Rest()))
  {
    hide CharacterOf, Joined;
    ghost var rest0 := source.Rest();
    var n: nat := count;
    var result := "";
    JoinedNothing(ParseAlphanumeric(rest0, n));
    while n > 1
      invariant source.Valid()
      invariant Joined(result, ParseAlphanumeric(source.Rest(), n)) == ParseAlphanumeric(rest0, count)
    {
      ghost var rest := source.Rest();
      var available := source.Available();
      if available < 11 {
        Failed(result);
        return None;
      }
      var pair := ReadNumber(source, 11);
      if pair / 45 >= 45 {
        Failed(result);
        return None;
      }
      var chars := [CharacterOf(pair / 45), CharacterOf(pair % 45)];
      AlphanumericStep(rest, n, pair, source.Rest());
      JoinedTwice(result, chars, ParseAlphanumeric(source.Rest(), n - 2));
      result := result + chars;
      n := n - 2;
    }
    ghost var last := source.Rest();
    var tail := "";
    if n == 1 {
      var available := source.Available();
      if available < 6 {
        Failed(result);
        return None;
      }
      var single := ReadNumber(source, 6);
      if single >= 45 {
        Failed(result);
        return None;
      }
      tail := [CharacterOf(single)];
    }
    assert ParseAlphanumeric(last, n) == Some((tail, source.Rest()));
    Succeeded(result, tail, source.Rest());
    text := Some(result + tail);
  }

  /** One turn of the loop over the segments: either the outcome, or a longer text. */
  method DecodeSegment(source: BitSource, version: nat, before: string) returns (done: Option<Parsed>, text: string)
    requires source.Valid()
    modifies source
    ensures source.Valid()
    ensures ParseSegments(old(source.Rest()), version, before)
            == if done.Some? then done.value else ParseSegments(source.Rest(), version, text)
    ensures done.None? ==> |source.Rest()| < |old(source.Rest())|
  {
    hide ParseNumeric, ParseAlphanumeric, CountBits, BitsNum;
    text := before;
    var available := source.Available();
    if available < 4 {
      return Some(Text(text)), text;
    }
    var mode := ReadNumber(source, 4);
    if mode == 0 {
      return Some(Text(text)), text;
    }
    if mode != 1 && mode != 2 {
      return Some(if mode in {3, 4, 5, 7, 8, 9, 13} then Foreign else Malformed), text;
    }
    var m := if mode == 1 then Numeric else Alphanumeric;
    available := source.Available();
    if CountBits(m, version) > available {
      return Some(Malformed), text;
    }
    var count := ReadNumber(source, CountBits(m, version));
    var part;
    if m == Numeric {
      part := DecodeNumericSegment(source, count);
    } else {
      part := DecodeAlphanumericSegment(source, count);
    }
    if part.None? {
      return Some(Malformed), text;
    }
    return None, text + part.value;
  }

  /** Segment after segment, until the terminator or until fewer than four bits are left. */
  method DecodeSegments(bytes: seq<Byte>, version: nat) returns (r: Parsed)
    ensures r == ParseSegments(Flatten(bytes), version, "")
    ensures forall parts :: HoldsParts(Flatten(bytes), parts, version) ==> r == Text(Concat(parts))
  {
    hide Flatten, ParseSegments, HoldsParts;
    var source := new BitSource(bytes);
    var text := "";
    var done: Option<Parsed> := None;
    while done.None?
      invariant source.Valid() && fresh(source)
      invariant ParseSegments(Flatten(bytes), version, "")
                == if done.Some? then done.value else ParseSegments(source.Rest(), version, text)
      decreases if done.None? then 1 + |source.Rest()| else 0
    {
      done, text := DecodeSegment(source, version, text);
    }
    r := done.value;
    forall parts | HoldsParts(Flatten(bytes), parts, version) ensures r == Text(Concat(parts)) {
      PartsRead(Flatten(bytes), parts, version);
    }
  }
}
