/** Bar codes whose check characters are known. */
module ChecksumExamples {
  import CheckDigits
  import LinearChecksums

  // ---- EAN-13

  lemma Appended(s: string, c: char, sum: int, weight: int)
    requires CheckDigits.Weighted(s, 4 - weight) == sum
    ensures CheckDigits.Weighted(s + [c], weight) == weight * CheckDigits.Digit(c) + sum
  {
    assert (s + [c])[..|s|] == s;
  }

  /** 4006381333931 is accepted, and with another last digit it is refused. */
  lemma PencilIsAccepted()
    ensures CheckDigits.StandardVerdict("4006381333931") == CheckDigits.Accepted
    ensures CheckDigits.StandardVerdict("4006381333932") == CheckDigits.Refused
  {
    hide CheckDigits.Weighted, CheckDigits.StandardVerdict;
    var s := "4006381333931";
    PencilSum();
    CheckDigits.ShortAcceptedExactly(s);
    CheckDigits.WrongDigitSeen(s, 12, '2');
    assert s[12 := '2'] == "4006381333932";
    PencilRefused();
  }

  lemma PencilRefused()
    ensures CheckDigits.StandardVerdict("4006381333932") != CheckDigits.Malformed
  {
    hide CheckDigits.Weighted;
  }

  lemma PencilSum()
    ensures CheckDigits.Weighted("4006381333931", 1) == 90
  {
    hide CheckDigits.Weighted;
    assert CheckDigits.Weighted("", 3) == 0 by { Empty(); }
    Appended("", '4', 0, 1);
    assert "" + ['4'] == "4";
    Appended("4", '0', 4, 3);
    assert "4" + ['0'] == "40";
    Appended("40", '0', 4, 1);
    assert "40" + ['0'] == "400";
    Appended("400", '6', 4, 3);
    assert "400" + ['6'] == "4006";
    Appended("4006", '3', 22, 1);
    assert "4006" + ['3'] == "40063";
    Appended("40063", '8', 25, 3);
    assert "40063" + ['8'] == "400638";
    Appended("400638", '1', 49, 1);
    assert "400638" + ['1'] == "4006381";
    Appended("4006381", '3', 50, 3);
    assert "4006381" + ['3'] == "40063813";
    Appended("40063813", '3', 59, 1);
    assert "40063813" + ['3'] == "400638133";
    Appended("400638133", '3', 62, 3);
    assert "400638133" + ['3'] == "4006381333";
    Appended("4006381333", '9', 71, 1);
    assert "4006381333" + ['9'] == "40063813339";
    Appended("40063813339", '3', 80, 3);
    assert "40063813339" + ['3'] == "400638133393";
    Appended("400638133393", '1', 89, 1);
    assert "400638133393" + ['1'] == "4006381333931";
  }

  lemma Empty()
    ensures CheckDigits.Weighted("", 3) == 0
  {
  }

  // ---- Code 93

  lemma Ahead(s: seq<nat>, c: nat, distance: nat, max: nat, sum: nat)
    requires max > 0 && LinearChecksums.SumFrom93(s, distance + 1, max) == sum
    ensures LinearChecksums.SumFrom93(s + [c], distance, max) == LinearChecksums.Weight93(distance, max) * c + sum
  {
    hide LinearChecksums.Weight93;
    assert (s + [c])[..|s|] == s;
  }

  lemma Start(distance: nat, max: nat)
    requires max > 0
    ensures LinearChecksums.SumFrom93([], distance, max) == 0
  {
  }

  lemma FirstSum()
    ensures LinearChecksums.Sum93([29, 14, 28, 29, 9, 3], 20) == 464
  {
    hide LinearChecksums.SumFrom93;
    Start(6, 20);
    Ahead([], 29, 5, 20, 0);
    assert [] + [29] == [29];
    Ahead([29], 14, 4, 20, 174);
    assert [29] + [14] == [29, 14];
    Ahead([29, 14], 28, 3, 20, 244);
    assert [29, 14] + [28] == [29, 14, 28];
    Ahead([29, 14, 28], 29, 2, 20, 356);
    assert [29, 14, 28] + [29] == [29, 14, 28, 29];
    Ahead([29, 14, 28, 29], 9, 1, 20, 443);
    assert [29, 14, 28, 29] + [9] == [29, 14, 28, 29, 9];
    Ahead([29, 14, 28, 29, 9], 3, 0, 20, 461);
    assert [29, 14, 28, 29, 9] + [3] == [29, 14, 28, 29, 9, 3];
  }

  lemma SecondSum()
    ensures LinearChecksums.Sum93([29, 14, 28, 29, 9, 3, 41], 15) == 617
  {
    hide LinearChecksums.SumFrom93;
    Start(7, 15);
    Ahead([], 29, 6, 15, 0);
    assert [] + [29] == [29];
    Ahead([29], 14, 5, 15, 203);
    assert [29] + [14] == [29, 14];
    Ahead([29, 14], 28, 4, 15, 287);
    assert [29, 14] + [28] == [29, 14, 28];
    Ahead([29, 14, 28], 29, 3, 15, 427);
    assert [29, 14, 28] + [29] == [29, 14, 28, 29];
    Ahead([29, 14, 28, 29], 9, 2, 15, 543);
    assert [29, 14, 28, 29] + [9] == [29, 14, 28, 29, 9];
    Ahead([29, 14, 28, 29, 9], 3, 1, 15, 570);
    assert [29, 14, 28, 29, 9] + [3] == [29, 14, 28, 29, 9, 3];
    Ahead([29, 14, 28, 29, 9, 3], 41, 0, 15, 576);
    assert [29, 14, 28, 29, 9, 3] + [41] == [29, 14, 28, 29, 9, 3, 41];
  }

  /** TEST93, followed by its check characters + and 6. */
  lemma Test93IsAccepted()
    ensures LinearChecksums.Accepted93([29, 14, 28, 29, 9, 3, 41, 6])
  {
    hide LinearChecksums.Sum93;
    FirstSum();
    SecondSum();
    var s := [29, 14, 28, 29, 9, 3, 41, 6];
    assert s[..6] == [29, 14, 28, 29, 9, 3] && s[..7] == [29, 14, 28, 29, 9, 3, 41];
  }

  // ---- Code 128

  lemma Next128(start: nat, s: seq<nat>, c: nat, sum: nat)
    requires LinearChecksums.Sum128(start, s) == sum
    ensures LinearChecksums.Sum128(start, s + [c]) == sum + (|s| + 1) * c
  {
    assert (s + [c])[..|s|] == s;
  }

  /** PJJ123C after the start character of set A, with the check character 54. */
  lemma PjjIsAccepted()
    ensures LinearChecksums.Accepted128(103, [48, 42, 42, 17, 18, 19, 35, 54])
  {
    assert LinearChecksums.Sum128(103, []) == 103;
    hide LinearChecksums.Sum128;
    Next128(103, [], 48, 103);
    assert [] + [48] == [48];
    Next128(103, [48], 42, 151);
    assert [48] + [42] == [48, 42];
    Next128(103, [48, 42], 42, 235);
    assert [48, 42] + [42] == [48, 42, 42];
    Next128(103, [48, 42, 42], 17, 361);
    assert [48, 42, 42] + [17] == [48, 42, 42, 17];
    Next128(103, [48, 42, 42, 17], 18, 429);
    assert [48, 42, 42, 17] + [18] == [48, 42, 42, 17, 18];
    Next128(103, [48, 42, 42, 17, 18], 19, 519);
    assert [48, 42, 42, 17, 18] + [19] == [48, 42, 42, 17, 18, 19];
    Next128(103, [48, 42, 42, 17, 18, 19], 35, 633);
    assert [48, 42, 42, 17, 18, 19] + [35] == [48, 42, 42, 17, 18, 19, 35];
    var s := [48, 42, 42, 17, 18, 19, 35, 54];
    assert s[..7] == [48, 42, 42, 17, 18, 19, 35];
  }
}
