/** The codes found in a frame's recognised text: normalised, filtered, each once, the longest
    first. */
module Extraction {
  import opened Consensus

  // ---- Normalising

  function UpperChar(c: char): char {
    if 'a' <= c <= 'z' then (c as int - 'a' as int + 'A' as int) as char else c
  }

  function Upper(s: string): (r: string)
    ensures |r| == |s|
  {
    seq(|s|, i requires 0 <= i < |s| => UpperChar(s[i]))
  }

  predicate CodeChar(c: char) {
    'A' <= c <= 'Z' || '0' <= c <= '9' || c == '-'
  }

  predicate CodeChars(s: string) {
    forall i :: 0 <= i < |s| ==> CodeChar(s[i])
  }

  function Kept(s: string): (r: string)
    ensures CodeChars(r)
  {
    if s == [] then [] else Kept(s[..|s| - 1]) + if CodeChar(s[|s| - 1]) then [s[|s| - 1]] else []
  }

  function TrimStart(s: string): string {
    if s != [] && s[0] == '-' then TrimStart(s[1..]) else s
  }

  function TrimEnd(s: string): string
    decreases |s|
  {
    if s != [] && s[|s| - 1] == '-' then TrimEnd(s[..|s| - 1]) else s
  }

  function Normalise(s: string): string {
    TrimEnd(TrimStart(Kept(Upper(s))))
  }

  /** What a normalised code looks like. */
  predicate Normal(s: string) {
    CodeChars(s) && (s != [] ==> s[0] != '-' && s[|s| - 1] != '-')
  }

  lemma {:induction false} TrimStartIs(s: string)
    ensures exists n: nat :: n <= |s| && TrimStart(s) == s[n..] && (n < |s| ==> s[n] != '-') && forall i :: 0 <= i < n ==> s[i] == '-'
  {
    if s != [] && s[0] == '-' {
      TrimStartIs(s[1..]);
      var n: nat :| n <= |s[1..]| && TrimStart(s[1..]) == s[1..][n..] && (n < |s[1..]| ==> s[1..][n] != '-') && forall i :: 0 <= i < n ==> s[1..][i] == '-';
      assert s[1..][n..] == s[n + 1..];
      forall i | 0 <= i < n + 1 ensures s[i] == '-' {
        assert i > 0 ==> s[1..][i - 1] == s[i];
      }
    } else {
      assert s[0..] == s;
    }
  }

  lemma {:induction false} TrimEndIs(s: string)
    ensures exists n: nat :: n <= |s| && TrimEnd(s) == s[..n] && (n > 0 ==> s[n - 1] != '-') && forall i :: n <= i < |s| ==> s[i] == '-'
    decreases |s|
  {
    var last := |s| - 1;
    if s != [] && s[last] == '-' {
      var t := s[..last];
      TrimEndIs(t);
      var n: nat :| n <= |t| && TrimEnd(t) == t[..n] && (n > 0 ==> t[n - 1] != '-') && forall i :: n <= i < |t| ==> t[i] == '-';
      assert t[..n] == s[..n];
      forall i | n <= i < |s| ensures s[i] == '-' {
        assert i < last ==> t[i] == s[i];
      }
    } else {
      assert s[..|s|] == s;
    }
  }

  lemma NormaliseIsNormal(s: string)
    ensures Normal(Normalise(s))
  {
    var k := Kept(Upper(s));
    TrimStartIs(k);
    TrimEndIs(TrimStart(k));
  }

  lemma {:induction false} KeptWhole(s: string)
    requires CodeChars(s)
    ensures Kept(s) == s
  {
    hide Kept, CodeChar;
    if s == [] {
      KeptStep(s);
    } else {
      KeptStep(s);
      KeptWhole(s[..|s| - 1]);
      assert s == s[..|s| - 1] + [s[|s| - 1]];
    }
  }

  lemma KeptStep(s: string)
    ensures s == [] ==> Kept(s) == []
    ensures s != [] ==> Kept(s) == Kept(s[..|s| - 1]) + if CodeChar(s[|s| - 1]) then [s[|s| - 1]] else []
  {
  }

  lemma NormalStays(s: string)
    requires Normal(s)
    ensures Normalise(s) == s
  {
    assert Upper(s) == s by {
      assert forall i :: 0 <= i < |s| ==> CodeChar(s[i]);
    }
    KeptWhole(s);
  }

  /** Normalising again changes nothing. */
  lemma NormaliseTwice(s: string)
    ensures Normalise(Normalise(s)) == Normalise(s)
  {
    NormaliseIsNormal(s);
    NormalStays(Normalise(s));
  }

  // ---- What normalising does, character by character

  lemma UpperJoined(a: string, b: string)
    ensures Upper(a + b) == Upper(a) + Upper(b)
  {
  }

  lemma {:induction false} KeptJoined(a: string, b: string)
    ensures Kept(a + b) == Kept(a) + Kept(b)
    decreases |b|
  {
    hide Kept, CodeChar;
    KeptStep(b);
    if b == [] {
      assert a + b == a;
    } else {
      KeptStep(a + b);
      KeptJoined(a, b[..|b| - 1]);
      assert (a + b)[..|a + b| - 1] == a + b[..|b| - 1];
    }
  }

  /** The capitals, digits and hyphens of a text, in order. */
  lemma PartsJoined(a: string, c: char, b: string)
    ensures Kept(Upper(a + [c] + b))
            == Kept(Upper(a)) + (if CodeChar(UpperChar(c)) then [UpperChar(c)] else []) + Kept(Upper(b))
  {
    UpperJoined(a + [c], b);
    UpperJoined(a, [c]);
    hide Kept, CodeChar, UpperChar;
    KeptJoined(Upper(a + [c]), Upper(b));
    KeptJoined(Upper(a), Upper([c]));
    assert Upper([c]) == [UpperChar(c)];
    KeptStep([UpperChar(c)]);
    KeptStep([]);
    assert [UpperChar(c)][..0] == [];
  }

  /** Anything but a letter, a digit or a hyphen is dropped. */
  lemma OthersDropped(a: string, c: char, b: string)
    requires !('A' <= c <= 'Z') && !('a' <= c <= 'z') && !('0' <= c <= '9') && c != '-'
    ensures Normalise(a + [c] + b) == Normalise(a + b)
  {
    PartsJoined(a, c, b);
    UpperJoined(a, b);
    KeptJoined(Upper(a), Upper(b));
    assert Kept(Upper(a)) + [] + Kept(Upper(b)) == Kept(Upper(a)) + Kept(Upper(b));
  }

  /** A small letter counts as the capital. */
  lemma SmallIsCapital(a: string, k: nat, b: string)
    requires k < 26
    ensures Normalise(a + ["abcdefghijklmnopqrstuvwxyz"[k]] + b) == Normalise(a + ["ABCDEFGHIJKLMNOPQRSTUVWXYZ"[k]] + b)
  {
    LetterAt(k);
    PartsJoined(a, "abcdefghijklmnopqrstuvwxyz"[k], b);
    PartsJoined(a, "ABCDEFGHIJKLMNOPQRSTUVWXYZ"[k], b);
  }

  lemma LetterAt(k: nat)
    requires k < 26
    ensures "abcdefghijklmnopqrstuvwxyz"[k] == (k + 97) as char && "ABCDEFGHIJKLMNOPQRSTUVWXYZ"[k] == (k + 65) as char
  {
  }

  /** Capitals, digits and hyphens inside stay as they are. */
  lemma CodeStays(s: string)
    requires forall i :: 0 <= i < |s| ==> 'A' <= s[i] <= 'Z' || '0' <= s[i] <= '9' || (s[i] == '-' && 0 < i < |s| - 1)
    ensures Normalise(s) == s
  {
    NormalStays(s);
  }

  /** Hyphens in front and behind are dropped. */
  lemma OuterHyphensDropped(s: string)
    ensures Normalise("-" + s) == Normalise(s) && Normalise(s + "-") == Normalise(s)
  {
    PartsJoined("", '-', s);
    assert "" + ['-'] + s == "-" + s;
    PartsJoined(s, '-', "");
    assert s + ['-'] + "" == s + "-";
    var k := Kept(Upper(s));
    assert Upper("") == "";
    assert Kept("") == "";
    assert "" + ['-'] + k == "-" + k && k + ['-'] + "" == k + "-";
    TrimFront(k);
    TrimBack(k);
  }

  lemma TrimFront(k: string)
    ensures TrimStart("-" + k) == TrimStart(k)
  {
    assert ("-" + k)[1..] == k;
  }

  lemma {:induction false} TrimBack(k: string)
    ensures TrimEnd(TrimStart(k + "-")) == TrimEnd(TrimStart(k))
  {
    if k != [] && k[0] == '-' {
      assert (k + "-")[1..] == k[1..] + "-";
      TrimBack(k[1..]);
    } else if k == [] {
      assert k + "-" == "-";
    } else {
      assert (k + "-")[..|k|] == k;
    }
  }

  // ---- Which codes are taken

  const STOP_WORDS: set<string> :=
    {"MADEIN", "MADE", "CHINA", "ITALY", "FRANCE", "TUNISIA", "TURKEY", "QTY", "PCS", "SIZE", "COLOR", "COLOUR",
     "WEIGHT", "NET", "GROSS", "CARTON", "BOX", "TOTAL", "FRAGILE", "THIS", "SIDE", "WITH", "CARE", "INVOICE",
     "ORDER", "DATE", "FROM", "SHIP", "TRACKING", "BARCODE"}

  predicate HasDigit(s: string) {
    exists i :: 0 <= i < |s| && '0' <= s[i] <= '9'
  }

  predicate Taken(code: string) {
    |code| >= 6 && code !in STOP_WORDS && HasDigit(code)
  }

  predicate LongestFirst(codes: seq<string>) {
    forall i, j :: 0 <= i < j < |codes| ==> |codes[i]| >= |codes[j]|
  }

  /** Behind those that are not shorter. */
  function Insert(codes: seq<string>, code: string): (r: seq<string>) {
    if codes == [] || |codes[|codes| - 1]| >= |code| then codes + [code]
    else Insert(codes[..|codes| - 1], code) + [codes[|codes| - 1]]
  }

  /** The stable sort, the longest first. */
  function Sorted(codes: seq<string>): seq<string> {
    if codes == [] then [] else Insert(Sorted(codes[..|codes| - 1]), codes[|codes| - 1])
  }

  lemma {:induction false} InsertKeeps(codes: seq<string>, code: string)
    ensures forall c :: c in Insert(codes, code) <==> c in codes || c == code
    ensures LongestFirst(codes) ==> LongestFirst(Insert(codes, code))
    ensures DuplicateFree(codes) && code !in codes ==> DuplicateFree(Insert(codes, code))
    decreases |codes|
  {
    if codes == [] || |codes[|codes| - 1]| >= |code| {
    } else {
      var last := |codes| - 1;
      var front := codes[..last];
      InsertKeeps(front, code);
      assert codes == front + [codes[last]];
      var r := Insert(codes, code);
      assert LongestFirst(codes) ==> LongestFirst(front);
      if LongestFirst(codes) {
        forall i | 0 <= i < |r| - 1 ensures |r[i]| >= |codes[last]| {
          assert r[i] in Insert(front, code);
        }
      }
      if DuplicateFree(codes) && code !in codes {
        assert codes[last] !in front;
      }
    }
  }

  lemma {:induction false} SortedKeeps(codes: seq<string>)
    ensures forall c :: c in Sorted(codes) <==> c in codes
    ensures LongestFirst(Sorted(codes))
    ensures DuplicateFree(codes) ==> DuplicateFree(Sorted(codes))
    decreases |codes|
  {
    if codes != [] {
      var front := codes[..|codes| - 1];
      SortedKeeps(front);
      InsertKeeps(Sorted(front), codes[|codes| - 1]);
      assert codes == front + [codes[|codes| - 1]];
      assert DuplicateFree(codes) ==> codes[|codes| - 1] !in front;
    }
  }

  // ---- Equally long codes

  /** The place of the first match that gives the code, or the number of matches. */
  function FirstMatch(matches: seq<string>, code: string): nat {
    if matches == [] then 0
    else if Normalise(matches[0]) == code then 0
    else 1 + FirstMatch(matches[1..], code)
  }

  lemma {:induction false} FirstMatchIs(matches: seq<string>, code: string, i: nat)
    requires i < |matches| && Normalise(matches[i]) == code
    requires forall j :: 0 <= j < i ==> Normalise(matches[j]) != code
    ensures FirstMatch(matches, code) == i
    decreases i
  {
    hide Normalise;
    if i > 0 {
      FirstMatchIs(matches[1..], code, i - 1);
    }
  }

  /** The longer code is ahead, and of equally long ones the one matched first. */
  predicate Ahead(matches: seq<string>, a: string, b: string) {
    |a| > |b| || (|a| == |b| && FirstMatch(matches, a) < FirstMatch(matches, b))
  }

  predicate InOrder(matches: seq<string>, codes: seq<string>) {
    forall i, j :: 0 <= i < j < |codes| ==> Ahead(matches, codes[i], codes[j])
  }

  /** A code matched after the others keeps its place behind those that are as long. */
  lemma {:induction false} InsertInOrder(matches: seq<string>, codes: seq<string>, code: string)
    requires InOrder(matches, codes)
    requires forall c :: c in codes ==> FirstMatch(matches, c) < FirstMatch(matches, code)
    ensures InOrder(matches, Insert(codes, code))
    decreases |codes|
  {
    hide FirstMatch;
    var r := Insert(codes, code);
    if codes != [] && |codes[|codes| - 1]| < |code| {
      var last := |codes| - 1;
      InsertInOrder(matches, codes[..last], code);
      InsertKeeps(codes[..last], code);
      forall i | 0 <= i < |r| - 1 ensures Ahead(matches, r[i], codes[last]) {
        assert r[i] in Insert(codes[..last], code);
      }
    } else {
      forall i | 0 <= i < |codes| ensures Ahead(matches, codes[i], code) {
        assert codes[i] in codes;
        assert i < |codes| - 1 ==> Ahead(matches, codes[i], codes[|codes| - 1]);
      }
    }
  }

  lemma {:induction false} SortedInOrder(matches: seq<string>, codes: seq<string>)
    requires forall i, j :: 0 <= i < j < |codes| ==> FirstMatch(matches, codes[i]) < FirstMatch(matches, codes[j])
    ensures InOrder(matches, Sorted(codes))
    decreases |codes|
  {
    hide FirstMatch, Insert, Ahead;
    if codes != [] {
      var last := |codes| - 1;
      SortedInOrder(matches, codes[..last]);
      SortedKeeps(codes[..last]);
      forall c | c in Sorted(codes[..last]) ensures FirstMatch(matches, c) < FirstMatch(matches, codes[last]) {
        var i :| 0 <= i < last && codes[i] == c;
      }
      InsertInOrder(matches, Sorted(codes[..last]), codes[last]);
    }
  }

  /** The codes of a frame, from the matches of the patterns in turn. */
  method ExtractCodes(matches: seq<string>) returns (codes: seq<string>)
    ensures DuplicateFree(codes) && LongestFirst(codes)
    ensures InOrder(matches, codes)
    ensures forall c :: c in codes <==> Taken(c) && exists i :: 0 <= i < |matches| && Normalise(matches[i]) == c
  {
    hide Taken, Normalise, FirstMatch, Sorted;
    var found: seq<string> := [];
    for i := 0 to |matches|
      invariant DuplicateFree(found)
      invariant forall k :: 0 <= k < |found| ==> FirstMatch(matches, found[k]) < i
      invariant forall j, k :: 0 <= j < k < |found| ==> FirstMatch(matches, found[j]) < FirstMatch(matches, found[k])
      invariant forall c :: c in found <==> Taken(c) && exists j :: 0 <= j < i && Normalise(matches[j]) == c
    {
      var code := Normalise(matches[i]);
      if Taken(code) && code !in found {
        FirstMatchIs(matches, code, i);
        found := found + [code];
      }
    }
    SortedKeeps(found);
    SortedInOrder(matches, found);
    codes := Sorted(found);
  }

  lemma StopWordsHaveNoDigit(code: string)
    requires code in STOP_WORDS
    ensures !HasDigit(code)
  {
  }

  /** The stop words exclude nothing that the digit does not exclude already. */
  lemma StopWordsIdle(code: string)
    ensures Taken(code) <==> |code| >= 6 && HasDigit(code)
  {
    if code in STOP_WORDS {
      StopWordsHaveNoDigit(code);
    }
  }
}
