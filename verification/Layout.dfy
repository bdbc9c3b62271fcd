/** Tables laid out row after row. */
module Layout {
  /** j rows of n, one after the other; the product kept out of the solver's sight. */
  function Rows(j: nat, n: nat): nat {
    if j == 0 then 0 else Rows(j - 1, n) + n
  }

  lemma {:induction false} RowsIsProduct(j: nat, n: nat)
    ensures Rows(j, n) == j * n
    decreases j
  {
    if j != 0 {
      RowsIsProduct(j - 1, n);
    }
  }

  lemma {:induction false} SlotInside(n: nat, m: nat, j: nat, i: nat)
    requires i < n && j < m
    ensures Rows(j, n) + i < Rows(m, n)
    decreases m
  {
    if j < m - 1 {
      SlotInside(n, m - 1, j, i);
    }
  }

  /** Column and row of place p when rows are n long. */
  function Slot(p: nat, n: nat): (nat, nat)
    requires 0 < n
    decreases p
  {
    if p < n then (p, 0) else
    var (i, j) := Slot(p - n, n);
    (i, j + 1)
  }

  lemma {:induction false} SlotAt(p: nat, n: nat, m: nat)
    requires 0 < n && p < Rows(m, n)
    ensures var (i, j) := Slot(p, n); i < n && j < m && Rows(j, n) + i == p
    decreases p
  {
    if p >= n {
      SlotAt(p - n, n, m - 1);
    }
  }

  lemma {:induction false} SlotOf(j: nat, n: nat, i: nat)
    requires i < n
    ensures Slot(Rows(j, n) + i, n) == (i, j)
    decreases j
  {
    if j != 0 {
      SlotOf(j - 1, n, i);
    }
  }
}
