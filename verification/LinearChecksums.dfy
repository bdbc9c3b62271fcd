/** The checksums of Code 93 and Code 128. */
module LinearChecksums {
  // ---- Primes

  /** Nothing from two to k divides p. */
  predicate NoDivisor(p: nat, k: nat) {
    k < 2 || (p % k != 0 && NoDivisor(p, k - 1))
  }

  predicate Prime(p: nat) {
    p >= 2 && NoDivisor(p, p - 1)
  }

  lemma {:induction false} NotDivided(p: nat, k: nat, d: nat)
    requires NoDivisor(p, k) && 2 <= d <= k
    ensures p % d != 0
  {
    if d < k {
      NotDivided(p, k - 1, d);
    }
  }

  ghost predicate Divides(p: int, x: int) {
    exists q: int :: x == p * q
  }

  /** A prime divides a product only if it divides a factor. */
  lemma {:induction false} PrimeDivides(p: nat, a: nat, b: int)
    requires Prime(p) && 0 < a < p && Divides(p, a * b)
    ensures Divides(p, b)
    decreases a
  {
    if a == 1 {
      assert a * b == b;
    } else {
      NotDivided(p, p - 1, a);
      RemainderDivides(p, a, b, p / a, p % a);
      PrimeDivides(p, p % a, b);
    }
  }

  lemma RemainderDivides(p: nat, a: nat, b: int, q: nat, r: nat)
    requires p == q * a + r && Divides(p, a * b)
    ensures Divides(p, r * b)
  {
    var m: int :| a * b == p * m;
    assert r * b == p * (b - q * m) by {
      assert r == p - q * a;
      assert (p - q * a) * b == p * b - (q * a) * b;
      assert (q * a) * b == q * (a * b) == q * (p * m) == p * (q * m);
      assert p * b - p * (q * m) == p * (b - q * m);
    }
  }

  lemma Divides103(x: int)
    ensures Divides(103, x) <==> x % 103 == 0
  {
    assert x == 103 * (x / 103) + x % 103;
  }

  // ---- Code 128

  /** The start character and the others, each by its place. */
  function Sum128(start: nat, codes: seq<nat>): nat {
    if codes == [] then start else Sum128(start, codes[..|codes| - 1]) + |codes| * codes[|codes| - 1]
  }

  /** The characters before the stop character: the last of them is the check character. Without
      any, zero is taken for it. */
  ghost predicate Accepted128(start: nat, codes: seq<nat>) {
    if codes == [] then start % 103 == 0 else Sum128(start, codes[..|codes| - 1]) % 103 == codes[|codes| - 1]
  }

  method Check128(start: nat, codes: seq<nat>) returns (ok: bool)
    ensures ok <==> Accepted128(start, codes)
  {
    var checksumTotal := start;
    var lastCode := 0;
    var multiplier := 0;
    for i := 0 to |codes|
      invariant multiplier == i && checksumTotal == Sum128(start, codes[..i])
      invariant lastCode == if i == 0 then 0 else codes[i - 1]
    {
      assert codes[..i + 1][..i] == codes[..i];
      lastCode := codes[i];
      multiplier := multiplier + 1;
      checksumTotal := checksumTotal + multiplier * lastCode;
    }
    assert codes[..|codes|] == codes;
    assert codes == [] ==> multiplier * lastCode == 0;
    assert codes != [] ==> multiplier * lastCode == |codes| * codes[|codes| - 1];
    checksumTotal := checksumTotal - multiplier * lastCode;
    ok := checksumTotal % 103 == lastCode;
  }

  predicate Codes(s: seq<nat>) {
    forall i :: 0 <= i < |s| ==> s[i] < 103
  }

  lemma {:induction false} Change128(start: nat, codes: seq<nat>, i: nat, c: nat)
    requires i < |codes|
    ensures Sum128(start, codes[i := c]) - Sum128(start, codes) == (i + 1) * (c - codes[i])
    decreases |codes|
  {
    var last := |codes| - 1;
    if i < last {
      assert codes[i := c][..last] == codes[..last][i := c];
      Change128(start, codes[..last], i, c);
    } else {
      assert codes[i := c][..last] == codes[..last];
      assert |codes| * c - |codes| * codes[last] == |codes| * (c - codes[last]);
    }
  }

  lemma ProductAtLeast(a: nat, k: nat, b: nat, q: nat)
    ensures a <= k && b <= q ==> a * b <= k * q
  {
    if a <= k && b <= q {
      assert k * q == a * b + a * (q - b) + (k - a) * q by {
        assert a * (q - b) == a * q - a * b;
        assert (k - a) * q == k * q - a * q;
      }
      assert a * (q - b) >= 0 && (k - a) * q >= 0;
    }
  }

  /** Of two factors of 103 one is at most ten, and none up to ten divides it. */
  lemma NoFactors103(k: nat, q: nat)
    requires 2 <= k < 103
    ensures k * q != 103
  {
    if k * q == 103 {
      if k <= 10 {
        SmallFactor103(k, q);
      } else {
        ProductAtLeast(11, k, 10, q);
        assert q >= 2;
        SmallFactor103(q, k);
      }
    }
  }

  lemma SmallFactor103(k: nat, q: nat)
    requires 2 <= k <= 10
    ensures k * q != 103
  {
    assert k == 2 || k == 3 || k == 4 || k == 5 || k == 6 || k == 7 || k == 8 || k == 9 || k == 10;
  }

  lemma {:induction false} NoDivisor103(k: nat)
    requires k < 103
    ensures NoDivisor(103, k)
  {
    if k >= 2 {
      NoDivisor103(k - 1);
      NoFactors103(k, 103 / k);
    }
  }

  lemma Prime103()
    ensures Prime(103)
  {
    NoDivisor103(102);
  }

  lemma SplitPlace(place: nat, d: int)
    ensures place * d == 103 * (place / 103 * d) + place % 103 * d
  {
    var q, r := place / 103, place % 103;
    assert place == 103 * q + r;
    assert (103 * q + r) * d == (103 * q) * d + r * d;
    assert (103 * q) * d == 103 * (q * d);
  }

  lemma Multiples103(place: nat, d: int)
    requires place > 0 && -103 < d < 103 && d != 0
    ensures (place * d) % 103 == 0 <==> place % 103 == 0
  {
    var q, r := place / 103, place % 103;
    SplitPlace(place, d);
    Divides103(place * d);
    Divides103(d);
    if r == 0 {
      assert r * d == 0;
      assert place * d == 103 * (q * d);
    } else if Divides(103, place * d) {
      var m: int :| place * d == 103 * m;
      assert r * d == 103 * (m - q * d);
      Prime103();
      hide Prime;
      PrimeDivides(103, r, d);
    }
  }

  /** A wrong character among the data is accepted exactly at the places that are multiples of 103. */
  lemma WrongCode128(start: nat, codes: seq<nat>, i: nat, c: nat)
    requires Accepted128(start, codes) && Codes(codes) && i + 1 < |codes| && c < 103 && c != codes[i]
    ensures Accepted128(start, codes[i := c]) <==> (i + 1) % 103 == 0
  {
    var last := |codes| - 1;
    assert codes[i := c][..last] == codes[..last][i := c];
    Change128(start, codes[..last], i, c);
    Multiples103(i + 1, c - codes[i]);
    SameRemainder103(Sum128(start, codes[..last]), Sum128(start, codes[..last][i := c]));
  }

  lemma SameRemainder103(x: nat, y: nat)
    ensures x % 103 == y % 103 <==> (y - x) % 103 == 0
  {
  }

  /** A wrong check or start character is never accepted. */
  lemma WrongEnds128(start: nat, codes: seq<nat>, c: nat)
    requires codes != [] && Accepted128(start, codes)
    ensures c != codes[|codes| - 1] ==> !Accepted128(start, codes[|codes| - 1 := c])
    ensures 103 <= start <= 105 && 103 <= c <= 105 && c != start ==> !Accepted128(c, codes)
  {
    var last := |codes| - 1;
    assert codes[last := c][..last] == codes[..last];
    StartAdds(start, codes[..last]);
    StartAdds(c, codes[..last]);
    SameRemainder103(Sum128(start, codes[..last]), Sum128(c, codes[..last]));
  }

  lemma {:induction false} StartAdds(start: nat, codes: seq<nat>)
    ensures Sum128(start, codes) == start + Sum128(0, codes)
  {
    if codes != [] {
      StartAdds(start, codes[..|codes| - 1]);
    }
  }

  // ---- Code 93

  /** The weight of a character, by its distance from the check character. */
  function Weight93(distance: nat, max: nat): (w: nat)
    requires max > 0
    ensures 1 <= w <= max
  {
    distance % max + 1
  }

  /** The characters before the check character, each by its weight. */
  function Sum93(s: seq<nat>, max: nat): nat
    requires max > 0
  {
    SumFrom93(s, 0, max)
  }

  function SumFrom93(s: seq<nat>, distance: nat, max: nat): nat
    requires max > 0
    decreases |s|
  {
    if s == [] then 0
    else Weight93(distance, max) * s[|s| - 1] + SumFrom93(s[..|s| - 1], distance + 1, max)
  }

  /** The character at place n checks those before it. */
  ghost predicate Checked93(s: seq<nat>, n: nat, max: nat)
    requires n < |s| && max > 0
  {
    Sum93(s[..n], max) % 47 == s[n]
  }

  /** The last two characters are check characters, the second over the first as well. */
  ghost predicate Accepted93(s: seq<nat>)
    requires |s| >= 2
  {
    Checked93(s, |s| - 2, 20) && Checked93(s, |s| - 1, 15)
  }

  method CheckOne93(s: seq<nat>, checkPosition: nat, weightMax: nat) returns (ok: bool)
    requires checkPosition < |s| && weightMax > 0
    ensures ok <==> Checked93(s, checkPosition, weightMax)
  {
    var weight := 1;
    var total := 0;
    var i: int := checkPosition - 1;
    assert s[..i + 1] == s[..checkPosition];
    while i >= 0
      invariant -1 <= i < checkPosition && weight == Weight93(checkPosition - 1 - i, weightMax)
      invariant total + SumFrom93(s[..i + 1], checkPosition - 1 - i, weightMax) == Sum93(s[..checkPosition], weightMax)
    {
      assert s[..i + 1][..i] == s[..i];
      NextWeight93(checkPosition - 1 - i, weightMax);
      total := total + weight * s[i];
      weight := weight + 1;
      if weight > weightMax {
        weight := 1;
      }
      i := i - 1;
    }
    ok := s[checkPosition] == total % 47;
  }

  lemma NextWeight93(distance: nat, max: nat)
    requires max > 0
    ensures Weight93(distance + 1, max) == if Weight93(distance, max) == max then 1 else Weight93(distance, max) + 1
  {
    var q, r := distance / max, distance % max;
    assert distance == max * q + r;
    if r == max - 1 {
      assert distance + 1 == max * (q + 1);
      Unique93(distance + 1, max, q + 1, 0);
    } else {
      Unique93(distance + 1, max, q, r + 1);
    }
  }

  lemma Unique93(n: nat, max: nat, q: nat, r: nat)
    requires max > 0 && n == max * q + r && r < max
    ensures n % max == r
  {
    var q', r' := n / max, n % max;
    assert n == max * q' + r';
    ProductAtLeast(max, max, q + 1, q');
    ProductAtLeast(max, max, q' + 1, q);
    assert max * (q + 1) == max * q + max && max * (q' + 1) == max * q' + max;
  }

  method Check93(s: seq<nat>) returns (ok: bool)
    requires |s| >= 2
    ensures ok <==> Accepted93(s)
  {
    ok := CheckOne93(s, |s| - 2, 20);
    if ok {
      ok := CheckOne93(s, |s| - 1, 15);
    }
  }

  lemma {:induction false} Change93(s: seq<nat>, i: nat, c: nat, distance: nat, max: nat)
    requires i < |s| && max > 0
    ensures SumFrom93(s[i := c], distance, max) - SumFrom93(s, distance, max)
         == Weight93(distance + |s| - 1 - i, max) * (c - s[i])
    decreases |s|
  {
    hide Weight93;
    var last := |s| - 1;
    if i < last {
      assert s[i := c][..last] == s[..last][i := c];
      Change93(s[..last], i, c, distance + 1, max);
    } else {
      assert s[i := c][..last] == s[..last];
      var w := Weight93(distance, max);
      assert w * c - w * s[last] == w * (c - s[last]);
    }
  }

  predicate Values93(s: seq<nat>) {
    forall i :: 0 <= i < |s| ==> s[i] < 47
  }

  lemma Multiples47(w: nat, d: int)
    requires 1 <= w <= 20 && -47 < d < 47 && d != 0
    ensures (w * d) % 47 != 0
  {
    Divides47(w * d);
    Divides47(d);
    if Divides(47, w * d) {
      Prime47();
      hide Prime;
      PrimeDivides(47, w, d);
    }
  }

  lemma Divides47(x: int)
    ensures Divides(47, x) <==> x % 47 == 0
  {
    assert x == 47 * (x / 47) + x % 47;
  }

  lemma NoFactors47(k: nat, q: nat)
    requires 2 <= k < 47
    ensures k * q != 47
  {
    if k * q == 47 {
      if k <= 6 {
        SmallFactor47(k, q);
      } else {
        ProductAtLeast(7, k, 7, q);
        assert q >= 2;
        SmallFactor47(q, k);
      }
    }
  }

  lemma SmallFactor47(k: nat, q: nat)
    requires 2 <= k <= 6
    ensures k * q != 47
  {
    assert k == 2 || k == 3 || k == 4 || k == 5 || k == 6;
  }

  lemma {:induction false} NoDivisor47(k: nat)
    requires k < 47
    ensures NoDivisor(47, k)
  {
    if k >= 2 {
      NoDivisor47(k - 1);
      NoFactors47(k, 47 / k);
    }
  }

  lemma Prime47()
    ensures Prime(47)
  {
    NoDivisor47(46);
  }

  lemma SameRemainder47(x: nat, y: nat)
    ensures x % 47 == y % 47 <==> (y - x) % 47 == 0
  {
  }

  /** One wrong character, be it data or a check character, is never accepted. */
  lemma WrongCharacter93(s: seq<nat>, i: nat, c: nat)
    requires |s| >= 2 && Values93(s) && Accepted93(s) && i < |s| && c < 47 && c != s[i]
    ensures !Accepted93(s[i := c])
  {
    var n := |s| - 2;
    var t := s[i := c];
    if i < n {
      assert t[..n] == s[..n][i := c];
      Change93(s[..n], i, c, 0, 20);
      var w := Weight93(n - 1 - i, 20);
      Multiples47(w, c - s[i]);
      SameRemainder47(Sum93(s[..n], 20), Sum93(t[..n], 20));
    } else if i == n {
      assert t[..n] == s[..n];
    } else {
      assert t[..n + 1] == s[..n + 1];
    }
  }
}
