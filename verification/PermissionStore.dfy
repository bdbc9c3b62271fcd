/** The seed as it runs: permissions and roles under generated ids, and the grants between them,
    updated step by step. */
module PermissionStores {
  import opened Catalogue
  import opened Options
  import opened PermissionColumns
  import opened Seeding

  /** A row of role_permissions. */
  datatype Grant = Grant(role: nat, permission: nat)

  predicate Injective<K>(ids: map<K, nat>) {
    forall a, b :: a in ids && b in ids && ids[a] == ids[b] ==> a == b
  }

  predicate Below<K>(ids: map<K, nat>, next: nat) {
    forall a :: a in ids ==> ids[a] < next
  }

  predicate Known(permissions: map<Key, nat>, roles: map<string, nat>, grants: set<Grant>) {
    forall g :: g in grants ==> g.role in roles.Values && g.permission in permissions.Values
  }

  /** The keys of the permissions granted to a role. */
  function HeldBy(permissions: map<Key, nat>, grants: set<Grant>, role: nat): set<Key> {
    set k | k in permissions && Grant(role, permissions[k]) in grants
  }

  function TablesOf(permissions: map<Key, nat>, roles: map<string, nat>, grants: set<Grant>): Tables {
    Tables(permissions.Keys, map n | n in roles :: HeldBy(permissions, grants, roles[n]))
  }

  class PermissionStore {
    var permissions: map<Key, nat>
    var columns: map<Key, Pair>
    var roles: map<string, nat>
    var grants: set<Grant>
    var nextId: nat

    ghost predicate Valid()
      reads this
    {
      Sound() && columns.Keys == permissions.Keys && Unique(columns)
    }

    /** Ids are not shared, and grants are between rows. */
    ghost predicate Sound()
      reads this`permissions, this`roles, this`grants, this`nextId
    {
      && Injective(permissions) && Below(permissions, nextId)
      && Injective(roles) && Below(roles, nextId)
      && Known(permissions, roles, grants)
    }

    ghost function Contents(): Tables
      reads this
    {
      TablesOf(permissions, roles, grants)
    }

    /** A fresh database. */
    constructor ()
      ensures Valid() && Contents() == Tables({}, map[])
    {
      permissions, columns, roles, grants, nextId := map[], map[], map[], {}, 0;
      new;
      assert TablesOf(map[], map[], {}).held == map[];
    }

    /** The key with its columns, or none, changing nothing, when another row has these. */
    method UpsertPermission(key: Key) returns (id: Option<nat>)
      requires Valid()
      modifies this`permissions, this`columns, this`nextId
      ensures Valid()
      ensures id.None? <==> Refused(old(columns), key)
      ensures id.None? ==> permissions == old(permissions) && columns == old(columns)
      ensures id.Some? ==>
                && key in permissions && permissions[key] == id.value && columns == old(columns)[key := Columns(key)]
                && (forall k :: k in old(permissions) ==> k in permissions && permissions[k] == old(permissions)[k])
                && permissions.Keys == old(permissions).Keys + {key}
                && Contents() == Tables(old(Contents()).keys + {key}, old(Contents()).held)
    {
      hide Columns, HeldBy, Unique, Sound, Refused, TablesOf;
      if Refused(columns, key) {
        return None;
      }
      UpdateUnique(columns, key);
      columns := columns[key := Columns(key)];
      var row := UpsertRow(key);
      id := Some(row);
    }

    method UpsertRow(key: Key) returns (id: nat)
      requires Sound()
      modifies this`permissions, this`nextId
      ensures Sound() && key in permissions && permissions[key] == id
      ensures forall k :: k in old(permissions) ==> k in permissions && permissions[k] == old(permissions)[k]
      ensures permissions.Keys == old(permissions).Keys + {key}
      ensures Contents() == Tables(old(Contents()).keys + {key}, old(Contents()).held)
    {
      if key in permissions {
        id := permissions[key];
      } else {
        id := nextId;
        AddedIsNotHeld(permissions, roles, grants, key, id);
        permissions := permissions[key := id];
        nextId := nextId + 1;
      }
    }

    method UpsertRole(name: string) returns (id: nat)
      requires Valid()
      modifies this`roles, this`nextId
      ensures Valid() && name in roles && roles[name] == id
      ensures forall n :: n in old(roles) ==> n in roles && roles[n] == old(roles)[n]
      ensures roles.Keys == old(roles).Keys + {name}
    {
      if name in roles {
        id := roles[name];
      } else {
        id := nextId;
        KnownAfterRole(permissions, roles, grants, name, id);
        roles := roles[name := id];
        nextId := nextId + 1;
      }
    }

    /** Every holder of the legacy permission gives it up for the targets. */
    method MoveHolders(legacyId: nat, targetIds: set<nat>)
      requires legacyId !in targetIds
      modifies this`grants
      ensures grants == Moved(old(grants), legacyId, targetIds, HoldersOf(old(grants), legacyId))
    {
      var holders := HoldersOf(grants, legacyId);
      ghost var moved: set<nat> := {};
      MovedNone(grants, legacyId, targetIds);
      while holders != {}
        invariant holders + moved == HoldersOf(old(grants), legacyId) && holders !! moved
        invariant grants == Moved(old(grants), legacyId, targetIds, moved)
      {
        var h :| h in holders;
        MovedOne(old(grants), legacyId, targetIds, moved, h);
        grants := grants - {Grant(h, legacyId)};
        grants := grants + (set t | t in targetIds :: Grant(h, t));
        moved := moved + {h};
        holders := holders - {h};
      }
      assert moved == HoldersOf(old(grants), legacyId);
    }

    /** One legacy key is replaced by its targets, and deleted unless the catalogue has it. */
    method MigrateLegacy(l: LegacyGrant, permId: map<Key, nat>)
      requires Valid() && Agrees(permId, permissions)
      modifies this`permissions, this`columns, this`grants
      ensures Valid() && Agrees(permId, permissions)
      ensures forall k :: k in permId ==> k in columns && columns[k] == old(columns)[k]
      ensures Contents() == MigrateOne(old(Contents()), l, permId.Keys)
    {
      hide HeldBy, Migrated, Unique, Moved, TargetIds, HoldersOf, Below;
      if l.key !in permissions {
        NothingToMigrate(permissions, roles, grants, l, permId.Keys);
        return;
      }
      var legacyId := permissions[l.key];
      var targetIds := TargetIds(l, permId, legacyId);
      NotATarget(l, permId, legacyId);
      MoveHolders(legacyId, targetIds);
      MovedTables(permissions, roles, old(grants), l, permId);
      var stillHeld := exists g :: g in grants && g.permission == legacyId;
      if !stillHeld && l.key !in permId {
        DropPermission(l.key);
      }
    }

    /** Deletes a permission nobody holds. */
    method DropPermission(key: Key)
      requires Valid() && key in permissions && forall g :: g in grants ==> g.permission != permissions[key]
      modifies this`permissions, this`columns
      ensures Valid() && permissions == old(permissions) - {key} && columns == old(columns) - {key}
      ensures Contents() == Tables(old(permissions).Keys - {key}, old(Contents()).held)
    {
      hide HeldBy, Unique;
      DroppedTables(permissions, roles, grants, key);
      UniqueWithout(columns, key);
      permissions := permissions - {key};
      columns := columns - {key};
    }

    /** The role is created if need be, and its grants are made those it names. */
    method ReconcileRole(role: Role, permId: map<Key, nat>)
      requires Valid() && Agrees(permId, permissions)
      modifies this`roles, this`grants, this`nextId
      ensures Valid() && permissions == old(permissions) && columns == old(columns)
      ensures Contents() == Reconciled(old(Contents()), role, permId.Keys)
    {
      hide HeldBy, Unique, GrantsWith, Reconciled, Wanted;
      ghost var before := roles;
      var roleId := UpsertRole(role.name);
      var existing := set g | g in grants && g.role == roleId :: g.permission;
      var wanted := Wanted(role, permId);
      var toRemove := existing - wanted;
      var toAdd := wanted - existing;
      grants := grants - (set p | p in toRemove :: Grant(roleId, p));
      grants := grants + (set p | p in toAdd :: Grant(roleId, p));
      ReconciledGrants(old(grants), roleId, wanted, grants);
      ReconciledTables(permissions, before, roles, old(grants), role, permId);
    }

    /** The whole run.  It stops with the catalogue half written when a row of another key has the
        columns of a catalogued one; roles and grants are untouched then. */
    method Seed(catalogue: seq<Key>, legacies: seq<LegacyGrant>, seeded: seq<Role>) returns (ok: bool)
      requires Valid() && Distinct(catalogue)
      modifies this
      ensures Valid() && (ok <==> !Clashes(old(columns), catalogue))
      ensures !ok ==> roles == old(roles) && grants == old(grants) && Contents().held == old(Contents()).held
      ensures ok ==> Contents() == Seeded(old(Contents()), KeysOf(catalogue), legacies, seeded)
      ensures ok ==> !Clashes(columns, catalogue)
    {
      hide Columns, Unique, Distinct, Clashes;
      var permIds := UpsertCatalogue(catalogue);
      if permIds.None? {
        return false;
      }
      var permId := permIds.value;
      MigrateLegacyPermissions(legacies, permId, catalogue);
      ghost var migrated := Contents();
      var i := 0;
      while i < |seeded|
        invariant 0 <= i <= |seeded| && Valid() && Agrees(permId, permissions)
        invariant Catalogued(columns, catalogue)
        invariant Contents() == ReconcileAll(migrated, seeded[..i], KeysOf(catalogue))
      {
        ReconcileRole(seeded[i], permId);
        assert seeded[..i + 1][..i] == seeded[..i];
        i := i + 1;
      }
      assert seeded[..|seeded|] == seeded;
      NoClashAgain(columns, catalogue);
      ok := true;
    }

    /** All legacy permissions in turn. */
    method MigrateLegacyPermissions(legacies: seq<LegacyGrant>, permId: map<Key, nat>, ghost catalogue: seq<Key>)
      requires Valid() && Agrees(permId, permissions) && Catalogued(columns, catalogue)
      requires permId.Keys == KeysOf(catalogue)
      modifies this
      ensures Valid() && Agrees(permId, permissions) && Catalogued(columns, catalogue)
      ensures Contents() == MigrateAll(old(Contents()), legacies, KeysOf(catalogue))
    {
      hide Columns, Unique;
      var i := 0;
      ghost var start := Contents();
      while i < |legacies|
        invariant 0 <= i <= |legacies| && Valid() && Agrees(permId, permissions)
        invariant Catalogued(columns, catalogue)
        invariant Contents() == MigrateAll(start, legacies[..i], KeysOf(catalogue))
      {
        MigrateLegacy(legacies[i], permId);
        assert legacies[..i + 1][..i] == legacies[..i];
        i := i + 1;
      }
      assert legacies[..|legacies|] == legacies;
    }

    method UpsertCatalogue(catalogue: seq<Key>) returns (permIds: Option<map<Key, nat>>)
      requires Valid() && Distinct(catalogue)
      modifies this`permissions, this`columns, this`nextId
      ensures Valid() && Contents().held == old(Contents()).held
      ensures permIds.None? <==> Clashes(old(columns), catalogue)
      ensures permIds.Some? ==>
                && permIds.value.Keys == KeysOf(catalogue) && Agrees(permIds.value, permissions)
                && Catalogued(columns, catalogue)
                && Contents() == Tables(old(Contents()).keys + KeysOf(catalogue), old(Contents()).held)
    {
      hide Columns, Unique, Distinct, HeldBy, Updated, Refused, Sound, TablesOf, Clashes, FreeBefore;
      NoneBefore(columns, catalogue);
      var permId: map<Key, nat> := map[];
      for i := 0 to |catalogue|
        invariant Valid() && permId.Keys == KeysOf(catalogue[..i]) && Agrees(permId, permissions)
        invariant columns == Updated(old(columns), catalogue, i)
        invariant FreeBefore(old(columns), catalogue, i)
        invariant Contents() == Tables(old(Contents()).keys + permId.Keys, old(Contents()).held)
      {
        StepFree(old(columns), catalogue, i);
        var id := UpsertPermission(catalogue[i]);
        if id.None? {
          return None;
        }
        permId := permId[catalogue[i] := id.value];
        assert catalogue[..i + 1] == catalogue[..i] + [catalogue[i]];
      }
      assert catalogue[..|catalogue|] == catalogue;
      CatalogueUpdated(old(columns), catalogue);
      AllFree(old(columns), catalogue);
      permIds := Some(permId);
    }
  }

  function KeysOf(catalogue: seq<Key>): set<Key> {
    set k | k in catalogue
  }

  /** Every catalogued key has its columns. */
  predicate Catalogued(columns: map<Key, Pair>, catalogue: seq<Key>) {
    forall k :: k in catalogue ==> k in columns && columns[k] == Columns(k)
  }

  lemma CatalogueUpdated(columns: map<Key, Pair>, catalogue: seq<Key>)
    ensures Catalogued(Updated(columns, catalogue, |catalogue|), catalogue)
  {
    hide Columns, Updated;
    assert catalogue[..|catalogue|] == catalogue;
    forall k | k in catalogue
      ensures var u := Updated(columns, catalogue, |catalogue|); k in u && u[k] == Columns(k)
    {
      UpdatedIs(columns, catalogue, |catalogue|, k);
    }
  }

  /** The ids looked up are those of the table. */
  predicate Agrees(permId: map<Key, nat>, permissions: map<Key, nat>) {
    forall k :: k in permId ==> k in permissions && permissions[k] == permId[k]
  }

  function Wanted(role: Role, permId: map<Key, nat>): set<nat> {
    set k | k in role.permissions && k in permId :: permId[k]
  }

  function HoldersOf(grants: set<Grant>, permission: nat): set<nat> {
    set g | g in grants && g.permission == permission :: g.role
  }

  /** The grants after the given holders were moved. */
  function Moved(grants: set<Grant>, legacyId: nat, targetIds: set<nat>, holders: set<nat>): set<Grant> {
    (set g | g in grants && !(g.permission == legacyId && g.role in holders))
    + (set h, t | h in holders && t in targetIds :: Grant(h, t))
  }

  lemma MovedNone(grants: set<Grant>, legacyId: nat, targetIds: set<nat>)
    ensures Moved(grants, legacyId, targetIds, {}) == grants
  {
  }

  lemma MovedOne(grants: set<Grant>, legacyId: nat, targetIds: set<nat>, moved: set<nat>, h: nat)
    requires legacyId !in targetIds
    ensures Moved(grants, legacyId, targetIds, moved + {h})
         == Moved(grants, legacyId, targetIds, moved) - {Grant(h, legacyId)} + (set t | t in targetIds :: Grant(h, t))
  {
  }

  lemma AddedIsNotHeld(permissions: map<Key, nat>, roles: map<string, nat>, grants: set<Grant>, key: Key, id: nat)
    requires key !in permissions && id !in permissions.Values && Known(permissions, roles, grants)
    ensures forall role :: HeldBy(permissions[key := id], grants, role) == HeldBy(permissions, grants, role)
    ensures Known(permissions[key := id], roles, grants)
  {
    forall g | g in grants ensures g.permission in permissions[key := id].Values {
      var k :| k in permissions && permissions[k] == g.permission;
      assert permissions[key := id][k] == g.permission;
    }
  }

  lemma KnownAfterRole(permissions: map<Key, nat>, roles: map<string, nat>, grants: set<Grant>, name: string, id: nat)
    requires name !in roles && Known(permissions, roles, grants)
    ensures Known(permissions, roles[name := id], grants)
  {
    forall g | g in grants ensures g.role in roles[name := id].Values {
      var n :| n in roles && roles[n] == g.role;
      assert roles[name := id][n] == g.role;
    }
  }

  lemma NothingToMigrate(permissions: map<Key, nat>, roles: map<string, nat>, grants: set<Grant>, l: LegacyGrant, catalogue: set<Key>)
    requires l.key !in permissions
    ensures MigrateOne(TablesOf(permissions, roles, grants), l, catalogue) == TablesOf(permissions, roles, grants)
  {
    var t := TablesOf(permissions, roles, grants);
    assert t.keys - {l.key} == t.keys;
    assert MigrateOne(t, l, catalogue).held == t.held;
  }

  function TargetIds(l: LegacyGrant, permId: map<Key, nat>, legacyId: nat): set<nat> {
    set t | t in l.targets && t in permId && permId[t] != legacyId :: permId[t]
  }

  lemma NotATarget(l: LegacyGrant, permId: map<Key, nat>, legacyId: nat)
    ensures legacyId !in TargetIds(l, permId, legacyId)
  {
  }

  lemma UniqueWithout(columns: map<Key, Pair>, key: Key)
    requires Unique(columns)
    ensures Unique(columns - {key})
  {
  }

  lemma MovedHeld(permissions: map<Key, nat>, grants: set<Grant>, l: LegacyGrant, permId: map<Key, nat>, role: nat)
    requires Injective(permissions) && Agrees(permId, permissions) && l.key in permissions
    ensures var id := permissions[l.key];
            HeldBy(permissions, Moved(grants, id, TargetIds(l, permId, id), HoldersOf(grants, id)), role)
              == Migrated(HeldBy(permissions, grants, role), l, permId.Keys)
  {
    var id := permissions[l.key];
    var moved := Moved(grants, id, TargetIds(l, permId, id), HoldersOf(grants, id));
    var before := HeldBy(permissions, grants, role);
    assert role in HoldersOf(grants, id) <==> l.key in before by {
      if role in HoldersOf(grants, id) {
        assert Grant(role, id) in grants;
      }
      if l.key in before {
        assert Grant(role, id) in grants;
      }
    }
    forall k | k in permissions
      ensures Grant(role, permissions[k]) in moved <==> k in Migrated(before, l, permId.Keys)
    {
      var p := permissions[k];
      assert p in TargetIds(l, permId, id) <==> k in l.targets && k in permId && k != l.key;
      assert p == id <==> k == l.key;
    }
  }

  lemma MovedKnown(permissions: map<Key, nat>, roles: map<string, nat>, grants: set<Grant>, l: LegacyGrant, permId: map<Key, nat>)
    requires Known(permissions, roles, grants) && Agrees(permId, permissions) && l.key in permissions
    ensures var id := permissions[l.key];
            Known(permissions, roles, Moved(grants, id, TargetIds(l, permId, id), HoldersOf(grants, id)))
  {
  }

  lemma MovedTables(permissions: map<Key, nat>, roles: map<string, nat>, grants: set<Grant>, l: LegacyGrant, permId: map<Key, nat>)
    requires Injective(permissions) && Known(permissions, roles, grants) && Agrees(permId, permissions)
    requires l.key in permissions
    ensures var id := permissions[l.key];
            var moved := Moved(grants, id, TargetIds(l, permId, id), HoldersOf(grants, id));
            && Known(permissions, roles, moved)
            && TablesOf(permissions, roles, moved).held == MigrateOne(TablesOf(permissions, roles, grants), l, permId.Keys).held
            && (forall g :: g in moved ==> g.permission != id)
  {
    MovedKnown(permissions, roles, grants, l, permId);
    hide HeldBy, Migrated;
    forall n | n in roles
      ensures var id := permissions[l.key];
              HeldBy(permissions, Moved(grants, id, TargetIds(l, permId, id), HoldersOf(grants, id)), roles[n])
                == Migrated(HeldBy(permissions, grants, roles[n]), l, permId.Keys)
    {
      MovedHeld(permissions, grants, l, permId, roles[n]);
    }
  }

  /** A permission nobody holds is dropped. */
  lemma DroppedTables(permissions: map<Key, nat>, roles: map<string, nat>, grants: set<Grant>, key: Key)
    requires Injective(permissions) && Known(permissions, roles, grants) && key in permissions
    requires forall g :: g in grants ==> g.permission != permissions[key]
    ensures Known(permissions - {key}, roles, grants) && Injective(permissions - {key})
    ensures TablesOf(permissions - {key}, roles, grants)
         == Tables(permissions.Keys - {key}, TablesOf(permissions, roles, grants).held)
  {
    forall role ensures HeldBy(permissions - {key}, grants, role) == HeldBy(permissions, grants, role) {
    }
    forall g | g in grants ensures g.permission in (permissions - {key}).Values {
      var k :| k in permissions && permissions[k] == g.permission;
      assert k in permissions - {key};
    }
  }

  lemma ReconciledGrants(grants: set<Grant>, roleId: nat, wanted: set<nat>, after: set<Grant>)
    requires var existing := set g | g in grants && g.role == roleId :: g.permission;
             after == grants - (set p | p in existing - wanted :: Grant(roleId, p))
                    + (set p | p in wanted - existing :: Grant(roleId, p))
    ensures after == GrantsWith(grants, roleId, wanted)
  {
    var existing := set g | g in grants && g.role == roleId :: g.permission;
    forall g ensures g in after <==> g in GrantsWith(grants, roleId, wanted) {
      assert g == Grant(g.role, g.permission);
      if g in grants && g.role == roleId {
        assert g.permission in existing;
      }
      if g.permission in existing && g.role == roleId {
        assert g in grants;
      }
    }
  }

  /** The grants with exactly the given ones for one role. */
  function GrantsWith(grants: set<Grant>, roleId: nat, wanted: set<nat>): set<Grant> {
    (set g | g in grants && g.role != roleId) + (set p | p in wanted :: Grant(roleId, p))
  }

  lemma ReconciledTables(permissions: map<Key, nat>, before: map<string, nat>, roles: map<string, nat>, grants: set<Grant>,
                         role: Role, permId: map<Key, nat>)
    requires Injective(permissions) && Agrees(permId, permissions) && Injective(roles)
    requires role.name in roles && roles.Keys == before.Keys + {role.name} && forall n :: n in before ==> roles[n] == before[n]
    requires Known(permissions, before, grants)
    ensures var after := GrantsWith(grants, roles[role.name], Wanted(role, permId));
            && Known(permissions, roles, after)
            && TablesOf(permissions, roles, after) == Reconciled(TablesOf(permissions, before, grants), role, permId.Keys)
  {
    var roleId := roles[role.name];
    var after := GrantsWith(grants, roleId, Wanted(role, permId));
    KnownWith(permissions, before, roles, grants, role, permId);
    forall n | n in roles
      ensures HeldBy(permissions, after, roles[n])
           == if n == role.name then role.permissions * permId.Keys else HeldBy(permissions, grants, roles[n])
    {
      hide HeldBy, Wanted, GrantsWith, Injective, Agrees, Known;
      HeldAfter(permissions, roles, grants, role, permId, n);
    }
    hide HeldBy, Wanted, GrantsWith, Injective, Agrees, Known;
    HeldMaps(permissions, before, roles, grants, after, role, permId.Keys);
  }

  lemma HeldMaps(permissions: map<Key, nat>, before: map<string, nat>, roles: map<string, nat>, grants: set<Grant>,
                 after: set<Grant>, role: Role, catalogue: set<Key>)
    requires role.name in roles && roles.Keys == before.Keys + {role.name} && forall n :: n in before ==> roles[n] == before[n]
    requires forall n :: n in roles ==>
               HeldBy(permissions, after, roles[n])
                 == if n == role.name then role.permissions * catalogue else HeldBy(permissions, grants, roles[n])
    ensures TablesOf(permissions, roles, after) == Reconciled(TablesOf(permissions, before, grants), role, catalogue)
  {
    hide HeldBy;
    forall n | n in roles && n !in before ensures n == role.name {
    }
  }

  lemma KnownWith(permissions: map<Key, nat>, before: map<string, nat>, roles: map<string, nat>, grants: set<Grant>,
                  role: Role, permId: map<Key, nat>)
    requires Agrees(permId, permissions) && Known(permissions, before, grants)
    requires role.name in roles && forall n :: n in before ==> n in roles && roles[n] == before[n]
    ensures Known(permissions, roles, GrantsWith(grants, roles[role.name], Wanted(role, permId)))
  {
    forall p | p in before.Values ensures p in roles.Values {
      var n :| n in before && before[n] == p;
      assert roles[n] == p;
    }
  }

  lemma HeldAfter(permissions: map<Key, nat>, roles: map<string, nat>, grants: set<Grant>, role: Role, permId: map<Key, nat>, name: string)
    requires Injective(permissions) && Agrees(permId, permissions) && Injective(roles) && role.name in roles && name in roles
    ensures HeldBy(permissions, GrantsWith(grants, roles[role.name], Wanted(role, permId)), roles[name])
         == if name == role.name then role.permissions * permId.Keys else HeldBy(permissions, grants, roles[name])
  {
    forall k | k in permissions ensures permissions[k] in Wanted(role, permId) <==> k in role.permissions && k in permId {
    }
  }
}
