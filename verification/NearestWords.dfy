/** What the two searches find: the first of the nearest words of the list, if it is within three
    bits, and nothing otherwise. */
module NearestWords {
  import opened BchCodes
  import opened InformationReading
  import opened Options
  import F = FormatInformation
  import V = VersionInformation

  lemma {:induction false} SameIsNear(a: nat, b: nat)
    ensures NumBitsDiffering(a, b) == 0 <==> a == b
    decreases a + b
  {
    if a != 0 || b != 0 {
      SameIsNear(a / 2, b / 2);
    }
  }

  /** How far format word k is from the nearer of the two copies. */
  function FormatGap(e: nat, t: nat, k: nat): nat
    requires k < 32
  {
    var h, h' := NumBitsDiffering(e, F.FormatTable(k)), NumBitsDiffering(t, F.FormatTable(k));
    if h' < h then h' else h
  }

  /** Word r is nearest, and those before it are not as near. */
  ghost predicate FirstNearest(e: nat, t: nat, r: nat) {
    && r < 32
    && (forall j :: 0 <= j < 32 ==> FormatGap(e, t, r) <= FormatGap(e, t, j))
    && (forall j :: 0 <= j < r ==> FormatGap(e, t, r) < FormatGap(e, t, j))
  }

  ghost predicate SomeNear(e: nat, t: nat) {
    exists j :: 0 <= j < 32 && FormatGap(e, t, j) <= 3
  }

  /** What the search knows after k words: none of them is a copy, and best is the first of the
      nearest, unless all are very far. */
  ghost predicate Searched(e: nat, t: nat, k: nat, best: nat, least: nat)
    requires k <= 32
  {
    && (forall j :: 0 <= j < k ==> FormatGap(e, t, j) > 0 && least <= FormatGap(e, t, j))
    && (least == MAX_SAFE_INTEGER
        || (best < k && FormatGap(e, t, best) == least && forall j :: 0 <= j < best ==> least < FormatGap(e, t, j)))
  }

  lemma SearchedStep(e: nat, t: nat, k: nat, best: nat, least: nat)
    requires k < 32 && Searched(e, t, k, best, least) && F.FormatTable(k) != e && F.FormatTable(k) != t
    ensures var (b, l) := Nearer(e, t, k, F.FormatTable(k), best, least); Searched(e, t, k + 1, b, l)
  {
    hide F.FormatTable, NumBitsDiffering;
    SameIsNear(e, F.FormatTable(k));
    SameIsNear(t, F.FormatTable(k));
  }

  lemma CopyFound(e: nat, t: nat, k: nat, best: nat, least: nat)
    requires k < 32 && Searched(e, t, k, best, least) && (F.FormatTable(k) == e || F.FormatTable(k) == t)
    ensures FirstNearest(e, t, k) && FormatGap(e, t, k) == 0
  {
    hide F.FormatTable, NumBitsDiffering;
    SameIsNear(e, F.FormatTable(k));
    SameIsNear(t, F.FormatTable(k));
  }

  lemma {:induction false} SearchNearest(e: nat, t: nat, k: nat, best: nat, least: nat)
    requires k <= 32 && Searched(e, t, k, best, least)
    ensures match FormatSearch(e, t, k, best, least)
            case None => !SomeNear(e, t)
            case Some(r) => FirstNearest(e, t, r) && FormatGap(e, t, r) <= 3
    decreases 32 - k
  {
    hide FormatGap, F.FormatTable, Nearer;
    if k < 32 {
      if F.FormatTable(k) == e || F.FormatTable(k) == t {
        CopyFound(e, t, k, best, least);
      } else {
        SearchedStep(e, t, k, best, least);
        var (b, l) := Nearer(e, t, k, F.FormatTable(k), best, least);
        SearchNearest(e, t, k + 1, b, l);
      }
    }
  }

  /** The format information read, whatever the two copies are: the first of the nearest words
      within three bits of a copy; if there is none, the same for the copies without the mask; and
      nothing just when there is none either. */
  lemma FormatDecodedExactly(e: nat, t: nat)
    ensures var e', t' := NumXor(e, 21522), NumXor(t, 21522);
            match FormatDecoded(e, t)
            case None => !SomeNear(e, t) && !SomeNear(e', t')
            case Some(r) =>
              if SomeNear(e, t) then FirstNearest(e, t, r) && FormatGap(e, t, r) <= 3
              else FirstNearest(e', t', r) && FormatGap(e', t', r) <= 3
  {
    hide FormatGap, FormatSearch, NumXor;
    SearchNearest(e, t, 0, 0, MAX_SAFE_INTEGER);
    SearchNearest(NumXor(e, 21522), NumXor(t, 21522), 0, 0, MAX_SAFE_INTEGER);
    assert forall r :: FirstNearest(e, t, r) && FormatGap(e, t, r) <= 3 ==> SomeNear(e, t);
  }

  // ---- Versions

  /** How far the word of version v is from a copy. */
  function VersionGap(e: nat, v: nat): nat
    requires 7 <= v <= 40
  {
    NumBitsDiffering(e, V.VersionTable(v - 7))
  }

  ghost predicate FirstNearestVersion(e: nat, r: nat) {
    && 7 <= r <= 40
    && (forall v :: 7 <= v <= 40 ==> VersionGap(e, r) <= VersionGap(e, v))
    && (forall v :: 7 <= v < r ==> VersionGap(e, r) < VersionGap(e, v))
  }

  ghost predicate VersionSearched(e: nat, k: nat, best: nat, least: nat)
    requires k <= 34
  {
    && (forall v :: 7 <= v < k + 7 ==> VersionGap(e, v) > 0 && least <= VersionGap(e, v))
    && (least == MAX_SAFE_INTEGER
        || (7 <= best < k + 7 && VersionGap(e, best) == least && forall v :: 7 <= v < best ==> least < VersionGap(e, v)))
  }

  lemma {:induction false} VersionSearchNearest(e: nat, k: nat, best: nat, least: nat)
    requires k <= 34 && VersionSearched(e, k, best, least)
    ensures match VersionSearch(e, k, best, least)
            case None => forall v :: 7 <= v <= 40 ==> VersionGap(e, v) > 3
            case Some(r) => FirstNearestVersion(e, r) && VersionGap(e, r) <= 3
    decreases 34 - k
  {
    hide V.VersionTable, NumBitsDiffering;
    if k < 34 {
      SameIsNear(e, V.VersionTable(k));
      assert VersionGap(e, k + 7) == NumBitsDiffering(e, V.VersionTable(k));
      if V.VersionTable(k) != e {
        var h := NumBitsDiffering(e, V.VersionTable(k));
        if h < least {
          VersionSearchNearest(e, k + 1, k + 7, h);
        } else {
          VersionSearchNearest(e, k + 1, best, least);
        }
      }
    }
  }

  /** The version read from a copy, whatever it is: the first of the nearest words within three
      bits, and nothing just when there is none. */
  lemma VersionDecodedExactly(e: nat)
    ensures match VersionSearch(e, 0, 0, MAX_SAFE_INTEGER)
            case None => forall v :: 7 <= v <= 40 ==> VersionGap(e, v) > 3
            case Some(r) => FirstNearestVersion(e, r) && VersionGap(e, r) <= 3
  {
    VersionSearchNearest(e, 0, 0, MAX_SAFE_INTEGER);
  }
}
