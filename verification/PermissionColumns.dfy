/** The columns resource and action of a permission, of which no two rows may have the same: when
    the catalogue can be put into a table. */
module PermissionColumns {
  import opened Catalogue

  datatype Pair = Pair(resource: Resource, action: Action)

  /** The columns a catalogued key is given; the key that resolves discrepancies has a shorter
      action there. */
  function Columns(k: Key): Pair {
    Pair(k.resource, if k.action == ResolveDiscrepancy then OtherAction("resolve") else k.action)
  }

  predicate Unique(columns: map<Key, Pair>) {
    forall a, b :: a in columns && b in columns && columns[a] == columns[b] ==> a == b
  }

  /** The table refuses the columns for the key, since another row has them. */
  predicate Refused(columns: map<Key, Pair>, key: Key) {
    exists k :: k in columns && k != key && columns[k] == Columns(key)
  }

  /** The table after the first n keys. */
  function Updated(columns: map<Key, Pair>, catalogue: seq<Key>, n: nat): map<Key, Pair>
    requires n <= |catalogue|
  {
    if n == 0 then columns else Updated(columns, catalogue, n - 1)[catalogue[n - 1] := Columns(catalogue[n - 1])]
  }

  lemma {:induction false} UpdatedIs(columns: map<Key, Pair>, catalogue: seq<Key>, n: nat, k: Key)
    requires n <= |catalogue|
    ensures var u := Updated(columns, catalogue, n);
            && (k in u <==> k in columns || k in catalogue[..n])
            && (k in u ==> u[k] == if k in catalogue[..n] then Columns(k) else columns[k])
  {
    if n > 0 {
      UpdatedIs(columns, catalogue, n - 1, k);
      assert catalogue[..n] == catalogue[..n - 1] + [catalogue[n - 1]];
    }
  }

  /** A row of another key, not among the keys before, has the columns of key i. */
  predicate ClashAt(columns: map<Key, Pair>, catalogue: seq<Key>, i: nat, k: Key)
    requires i < |catalogue|
  {
    k in columns && k != catalogue[i] && k !in catalogue[..i] && columns[k] == Columns(catalogue[i])
  }

  ghost predicate Clashes(columns: map<Key, Pair>, catalogue: seq<Key>) {
    exists i: nat, k :: i < |catalogue| && ClashAt(columns, catalogue, i, k)
  }

  /** No two catalogued keys have the same columns. */
  predicate Distinct(catalogue: seq<Key>) {
    forall a, b :: a in catalogue && b in catalogue && Columns(a) == Columns(b) ==> a == b
  }

  /** Key i is refused exactly when there is such a row. */
  lemma RefusedAt(columns: map<Key, Pair>, catalogue: seq<Key>, i: nat)
    requires i < |catalogue| && Distinct(catalogue)
    ensures Refused(Updated(columns, catalogue, i), catalogue[i]) <==> exists k :: ClashAt(columns, catalogue, i, k)
  {
    hide Columns, Updated;
    var u := Updated(columns, catalogue, i);
    if Refused(u, catalogue[i]) {
      var k :| k in u && k != catalogue[i] && u[k] == Columns(catalogue[i]);
      UpdatedIs(columns, catalogue, i, k);
      assert k in catalogue[..i] ==> k in catalogue;
      assert ClashAt(columns, catalogue, i, k);
    }
    if k :| ClashAt(columns, catalogue, i, k) {
      UpdatedIs(columns, catalogue, i, k);
    }
  }

  /** None of the first n keys clashes. */
  ghost predicate FreeBefore(columns: map<Key, Pair>, catalogue: seq<Key>, n: nat)
    requires n <= |catalogue|
  {
    forall i: nat, k :: i < n ==> !ClashAt(columns, catalogue, i, k)
  }

  lemma NoneBefore(columns: map<Key, Pair>, catalogue: seq<Key>)
    ensures FreeBefore(columns, catalogue, 0) && Updated(columns, catalogue, 0) == columns
  {
  }

  lemma StepFree(columns: map<Key, Pair>, catalogue: seq<Key>, n: nat)
    requires n < |catalogue| && Distinct(catalogue) && FreeBefore(columns, catalogue, n)
    ensures Refused(Updated(columns, catalogue, n), catalogue[n]) ==> Clashes(columns, catalogue)
    ensures !Refused(Updated(columns, catalogue, n), catalogue[n]) ==> FreeBefore(columns, catalogue, n + 1)
    ensures Updated(columns, catalogue, n + 1) == Updated(columns, catalogue, n)[catalogue[n] := Columns(catalogue[n])]
  {
    RefusedAt(columns, catalogue, n);
    hide Columns, Distinct, Refused, ClashAt;
  }

  lemma AllFree(columns: map<Key, Pair>, catalogue: seq<Key>)
    requires FreeBefore(columns, catalogue, |catalogue|)
    ensures !Clashes(columns, catalogue)
  {
  }

  /** Once the catalogue is in the table, it can be put in again. */
  lemma NoClashAgain(columns: map<Key, Pair>, catalogue: seq<Key>)
    requires Unique(columns) && forall k :: k in catalogue ==> k in columns && columns[k] == Columns(k)
    ensures !Clashes(columns, catalogue)
  {
    hide Columns;
  }

  lemma UpdateUnique(columns: map<Key, Pair>, key: Key)
    requires Unique(columns) && !Refused(columns, key)
    ensures Unique(columns[key := Columns(key)])
  {
  }

  /** The catalogue of the seed is fit for the table. */
  lemma PermissionsDistinct(catalogue: seq<Key>)
    requires forall k :: k in catalogue ==> k in Permissions()
    ensures Distinct(catalogue)
  {
    hide Permissions;
    forall a, b | a in catalogue && b in catalogue && Columns(a) == Columns(b) ensures a == b {
      NamedAction(a);
      NamedAction(b);
    }
  }

  lemma NamedAction(k: Key)
    requires k in Permissions()
    ensures !k.action.OtherAction?
  {
    hide IdentityKeys, FlowKeys, AdministrationKeys;
    if k in IdentityKeys() {
      IdentityAction(k);
    } else if k in FlowKeys() {
      FlowAction(k);
    } else if k in AdministrationKeys() {
      AdministrationAction(k);
    } else {
      StructureAction(k);
    }
  }

  lemma StructureAction(k: Key)
    requires k in Product(STRUCTURE_RESOURCES, STRUCTURE_ACTIONS)
    ensures !k.action.OtherAction?
  {
  }

  lemma IdentityAction(k: Key)
    requires k in IdentityKeys()
    ensures !k.action.OtherAction?
  {
  }

  lemma FlowAction(k: Key)
    requires k in FlowKeys()
    ensures !k.action.OtherAction?
  {
  }

  lemma AdministrationAction(k: Key)
    requires k in AdministrationKeys()
    ensures !k.action.OtherAction?
  {
  }
}
