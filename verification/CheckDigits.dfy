/** The check digits of the linear bar codes: which strings are accepted, and which errors are
    always seen. */
module CheckDigits {
  import opened Options

  // ---- UPC and EAN

  predicate IsDigit(c: char) {
    '0' <= c <= '9'
  }

  function Digit(c: char): int {
    c as int - '0' as int
  }

  predicate Digits(s: string) {
    forall i :: 0 <= i < |s| ==> IsDigit(s[i])
  }

  /** Every other digit, from the last one backwards. */
  function Alternate(s: string): int
    decreases |s|
  {
    if s == [] then 0 else Digit(s[|s| - 1]) + Alternate(if |s| == 1 then [] else s[..|s| - 2])
  }

  /** Digits weighted 3 and 1 in turn; the last has the given weight. */
  function Weighted(s: string, weight: int): int {
    if s == [] then 0 else weight * Digit(s[|s| - 1]) + Weighted(s[..|s| - 1], 4 - weight)
  }

  lemma {:induction false} AlternateIsWeighted(s: string)
    ensures Weighted(s, 3) == 3 * Alternate(s) + Alternate(s[..if s == [] then 0 else |s| - 1])
    ensures Weighted(s, 1) == Alternate(s) + 3 * Alternate(s[..if s == [] then 0 else |s| - 1])
  {
    if s != [] {
      var t := s[..|s| - 1];
      AlternateIsWeighted(t);
      if |s| > 1 {
        assert s[..|s| - 2] == t[..|t| - 1];
      }
    }
  }

  /** The remainder takes the sign of the dividend. */
  function Remainder(a: int, m: nat): int
    requires m > 0
  {
    if a >= 0 then a % m else -((-a) % m)
  }

  /** The check digit of a string of digits; none for another character. */
  ghost function StandardChecksum(s: string): Option<int> {
    if Digits(s) then Some(Remainder(1000 - Weighted(s, 3), 10)) else None
  }

  method AlternateSum(s: string, last: int) returns (sum: Option<int>)
    requires -1 <= last < |s|
    ensures sum.Some? <==> forall i :: 0 <= i <= last && (last - i) % 2 == 0 ==> IsDigit(s[i])
    ensures sum.Some? ==> sum.value == Alternate(s[..last + 1])
  {
    var total := 0;
    var i := last;
    while i >= 0
      invariant -2 <= i <= last && (last - i) % 2 == 0
      invariant forall j :: i < j <= last && (last - j) % 2 == 0 ==> IsDigit(s[j])
      invariant Alternate(s[..last + 1]) == total + Alternate(if i < 0 then [] else s[..i + 1])
    {
      if !IsDigit(s[i]) {
        return None;
      }
      ghost var left := s[..i + 1];
      assert i >= 1 ==> left[..|left| - 2] == s[..i - 1];
      total := total + Digit(s[i]);
      i := i - 2;
    }
    sum := Some(total);
  }

  method GetStandardChecksum(s: string) returns (r: Option<int>)
    ensures r == StandardChecksum(s)
  {
    AlternateIsWeighted(s);
    assert s[..|s|] == s;
    var odd := AlternateSum(s, |s| - 1);
    if odd.None? {
      return None;
    }
    if |s| == 0 {
      return Some(0);
    }
    var even := AlternateSum(s, |s| - 2);
    if even.None? {
      return None;
    }
    assert Digits(s) by { EveryOther(s); }
    r := Some(Remainder(1000 - (3 * odd.value + even.value), 10));
  }

  lemma EveryOther(s: string)
    requires forall i :: 0 <= i <= |s| - 1 && (|s| - 1 - i) % 2 == 0 ==> IsDigit(s[i])
    requires forall i :: 0 <= i <= |s| - 2 && (|s| - 2 - i) % 2 == 0 ==> IsDigit(s[i])
    ensures Digits(s)
  {
    forall i | 0 <= i < |s| ensures IsDigit(s[i]) {
      assert (|s| - 1 - i) % 2 == 0 || (|s| - 2 - i) % 2 == 0;
    }
  }

  datatype Verdict = Accepted | Refused | Malformed

  ghost function StandardVerdict(s: string): Verdict {
    if s == [] then Refused else
    var prefix := s[..|s| - 1];
    if !Digits(prefix) then Malformed
    else if IsDigit(s[|s| - 1]) && StandardChecksum(prefix) == Some(Digit(s[|s| - 1])) then Accepted
    else Refused
  }

  method CheckStandardChecksum(s: string) returns (r: Verdict)
    ensures r == StandardVerdict(s)
  {
    if |s| == 0 {
      return Refused;
    }
    var c := s[|s| - 1];
    var computed := GetStandardChecksum(s[..|s| - 1]);
    if computed.None? {
      return Malformed;
    }
    r := if IsDigit(c) && computed.value == Digit(c) then Accepted else Refused;
  }

  lemma RemainderIs(sum: nat, d: nat)
    requires d <= 9
    ensures Remainder(1000 - sum, 10) == d <==> (d + sum) % 10 == 0 && (sum <= 1000 || d == 0)
  {
    if sum <= 1000 {
      TenMinus(1000 - sum, d);
    } else {
      TenMinus(sum - 1000, 0);
    }
  }

  lemma TenMinus(a: nat, d: nat)
    requires d <= 9
    ensures a % 10 == d <==> (d - a) % 10 == 0
  {
  }

  lemma {:induction false} WeightedPositive(s: string, weight: int)
    requires Digits(s) && 1 <= weight <= 3
    ensures Weighted(s, weight) >= 0
  {
    if s != [] {
      WeightedPositive(s[..|s| - 1], 4 - weight);
    }
  }

  /** Which strings are accepted: all are digits and the weighted sum is a multiple of ten; past a
      thousand only the check digit zero is taken. */
  lemma AcceptedExactly(s: string)
    ensures StandardVerdict(s) == Accepted <==>
              && s != [] && Digits(s) && Weighted(s, 1) % 10 == 0
              && (Weighted(s[..|s| - 1], 3) <= 1000 || s[|s| - 1] == '0')
  {
    hide Digits, Weighted, Remainder;
    if s != [] {
      var prefix := s[..|s| - 1];
      DigitsSplit(s);
      if Digits(s) {
        var sum := Weighted(prefix, 3);
        WeightedLast(s);
        WeightedPositive(prefix, 3);
        RemainderIs(sum, Digit(s[|s| - 1]));
      }
    }
  }

  lemma WeightedLast(s: string)
    requires s != []
    ensures Weighted(s, 1) == Digit(s[|s| - 1]) + Weighted(s[..|s| - 1], 3)
  {
  }

  lemma DigitsSplit(s: string)
    requires s != []
    ensures Digits(s) <==> Digits(s[..|s| - 1]) && IsDigit(s[|s| - 1])
  {
  }

  lemma {:induction false} WeightedBound(s: string)
    requires Digits(s)
    ensures 0 <= Weighted(s, 3) <= 18 * |s| + 9 * (|s| % 2)
    ensures 0 <= Weighted(s, 1) <= 18 * |s| - 9 * (|s| % 2)
  {
    if s != [] {
      WeightedBound(s[..|s| - 1]);
    }
  }

  /** Up to 56 digits the thousand is not passed: exactly the strings with a weighted sum that is a
      multiple of ten are accepted. */
  lemma ShortAcceptedExactly(s: string)
    requires |s| <= 56
    ensures StandardVerdict(s) == Accepted <==> s != [] && Digits(s) && Weighted(s, 1) % 10 == 0
  {
    AcceptedExactly(s);
    if s != [] && Digits(s) {
      WeightedBound(s[..|s| - 1]);
    }
  }

  lemma {:induction false} NinesWeigh(n: nat)
    ensures Weighted(Nines(n), 3) == 18 * n + 9 * (n % 2)
    ensures Weighted(Nines(n), 1) == 18 * n - 9 * (n % 2)
  {
    if n > 0 {
      assert Nines(n)[..n - 1] == Nines(n - 1);
      NinesWeigh(n - 1);
    }
  }

  function Nines(n: nat): (s: string)
    ensures |s| == n && forall i :: 0 <= i < n ==> s[i] == '9'
  {
    seq(n, i => '9')
  }

  /** With 57 digits a right check digit can be refused. */
  lemma LongRefused()
    ensures var s := Nines(56) + "2"; Digits(s) && Weighted(s, 1) % 10 == 0 && StandardVerdict(s) == Refused
  {
    var s := Nines(56) + "2";
    NinesWeigh(56);
    assert s[..56] == Nines(56);
    AcceptedExactly(s);
  }

  /** Changing one digit changes the sum by its weight. */
  lemma WeightedStep(s: string, weight: int)
    requires s != []
    ensures Weighted(s, weight) == weight * Digit(s[|s| - 1]) + Weighted(s[..|s| - 1], 4 - weight)
  {
  }

  lemma TimesDifference(w: int, a: int, b: int)
    ensures w * a - w * b == w * (a - b)
  {
  }

  lemma {:induction false} WeightedChange(s: string, i: nat, c: char, weight: int)
    requires i < |s|
    ensures Weighted(s[i := c], weight) - Weighted(s, weight)
         == (if (|s| - 1 - i) % 2 == 0 then weight else 4 - weight) * (Digit(c) - Digit(s[i]))
    decreases |s|
  {
    hide Weighted, Digit;
    var last := |s| - 1;
    WeightedStep(s, weight);
    WeightedStep(s[i := c], weight);
    if i < last {
      assert s[i := c][..last] == s[..last][i := c];
      WeightedChange(s[..last], i, c, 4 - weight);
    } else {
      assert s[i := c][..last] == s[..last];
      TimesDifference(weight, Digit(c), Digit(s[i]));
    }
  }

  lemma NotTen(x: int, y: int, weight: int, d: int)
    requires x % 10 == 0 && (weight == 1 || weight == 3) && -9 <= d <= 9 && d != 0 && y - x == weight * d
    ensures y % 10 != 0
  {
    if weight == 3 {
      assert y == x + 3 * d;
    }
  }

  /** One wrong digit is never accepted. */
  lemma WrongDigitSeen(s: string, i: nat, c: char)
    requires StandardVerdict(s) == Accepted && i < |s| && c != s[i]
    ensures StandardVerdict(s[i := c]) != Accepted
  {
    var t := s[i := c];
    AcceptedExactly(s);
    AcceptedExactly(t);
    WeightedChange(s, i, c, 1);
    assert IsDigit(s[i]);
    if Digits(t) {
      assert t[i] == c && IsDigit(c);
      hide Weighted, Digits, StandardVerdict;
      NotTen(Weighted(s, 1), Weighted(t, 1), if (|s| - 1 - i) % 2 == 0 then 1 else 3, Digit(c) - Digit(s[i]));
    }
  }

  function Swapped<T>(s: seq<T>, i: nat): (r: seq<T>)
    requires i + 1 < |s|
    ensures |r| == |s|
  {
    s[i := s[i + 1]][i + 1 := s[i]]
  }

  function WeightAt(n: nat, i: nat): (w: int)
    requires i < n
    ensures w == 1 || w == 3
  {
    if (n - 1 - i) % 2 == 0 then 1 else 3
  }

  lemma WeightsAlternate(n: nat, i: nat)
    requires i + 1 < n
    ensures WeightAt(n, i) + WeightAt(n, i + 1) == 4
  {
  }

  lemma DigitChange(s: string, i: nat, c: char)
    requires i < |s|
    ensures Weighted(s[i := c], 1) == Weighted(s, 1) + WeightAt(|s|, i) * (Digit(c) - Digit(s[i]))
  {
    hide Digit;
    WeightedChange(s, i, c, 1);
    hide Weighted;
  }

  lemma TwoChanges(x: int, y: int, z: int, v: int, w: int, d: int)
    requires y == x + v * d && z == y + w * (-d) && v + w == 4 && (v == 1 || v == 3)
    ensures z - x == 2 * d || z - x == -2 * d
  {
    if v == 1 {
      assert w == 3;
    } else {
      assert w == 1;
    }
  }

  lemma SwapChange(s: string, i: nat)
    requires i + 1 < |s|
    ensures var d := Digit(s[i + 1]) - Digit(s[i]);
            Weighted(Swapped(s, i), 1) - Weighted(s, 1) == 2 * d || Weighted(Swapped(s, i), 1) - Weighted(s, 1) == -2 * d
  {
    hide Weighted, Digit, WeightAt;
    var t := s[i := s[i + 1]];
    assert t[i + 1] == s[i + 1] && Swapped(s, i) == t[i + 1 := s[i]];
    hide Swapped;
    var d := Digit(s[i + 1]) - Digit(s[i]);
    DigitChange(s, i, s[i + 1]);
    DigitChange(t, i + 1, s[i]);
    WeightsAlternate(|s|, i);
    assert Digit(s[i]) - Digit(t[i + 1]) == -d;
    TwoChanges(Weighted(s, 1), Weighted(t, 1), Weighted(t[i + 1 := s[i]], 1), WeightAt(|s|, i), WeightAt(|s|, i + 1), d);
  }

  lemma TwiceTen(x: int, y: int, d: int)
    requires x % 10 == 0 && -9 <= d <= 9 && (y - x == 2 * d || y - x == -2 * d)
    ensures y % 10 == 0 <==> d == 0 || d == 5 || d == -5
  {
  }

  lemma SwapDigits(s: string, i: nat)
    requires i + 1 < |s|
    ensures Digits(Swapped(s, i)) <==> Digits(s)
  {
    var t := Swapped(s, i);
    assert t[i] == s[i + 1] && t[i + 1] == s[i];
    forall k | 0 <= k < |s| ensures Digits(s) ==> IsDigit(t[k]) {
      assert k != i && k != i + 1 ==> t[k] == s[k];
    }
    forall k | 0 <= k < |s| ensures Digits(t) ==> IsDigit(s[k]) {
      assert k != i && k != i + 1 ==> t[k] == s[k];
      assert t[i] == s[i + 1] && t[i + 1] == s[i];
    }
  }

  /** Two neighbours exchanged are accepted exactly when they differ by five or not at all and,
      when the sum of the others passes a thousand, the check digit is zero. */
  lemma SwapSeen(s: string, i: nat)
    requires StandardVerdict(s) == Accepted && i + 1 < |s|
    ensures var d := Digit(s[i + 1]) - Digit(s[i]);
            var t := Swapped(s, i);
            StandardVerdict(t) == Accepted <==>
              (d == 0 || d == 5 || d == -5) && (Weighted(t[..|t| - 1], 3) <= 1000 || t[|t| - 1] == '0')
  {
    AcceptedExactly(s);
    AcceptedExactly(Swapped(s, i));
    SwapDigits(s, i);
    SwapChange(s, i);
    assert IsDigit(s[i]) && IsDigit(s[i + 1]);
    hide Weighted, Digits, StandardVerdict, Swapped;
    TwiceTen(Weighted(s, 1), Weighted(Swapped(s, i), 1), Digit(s[i + 1]) - Digit(s[i]));
  }

  /** Up to 56 digits: exactly when they differ by five or not at all. */
  lemma ShortSwapSeen(s: string, i: nat)
    requires |s| <= 56 && StandardVerdict(s) == Accepted && i + 1 < |s|
    ensures var d := Digit(s[i + 1]) - Digit(s[i]);
            StandardVerdict(Swapped(s, i)) == Accepted <==> d == 0 || d == 5 || d == -5
  {
    SwapSeen(s, i);
    AcceptedExactly(s);
    SwapDigits(s, i);
    DigitsSplit(Swapped(s, i));
    WeightedBound(Swapped(s, i)[..|s| - 1]);
  }
}
