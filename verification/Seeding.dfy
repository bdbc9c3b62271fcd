/** What a run of the seed does to the permissions and to the roles that hold them, and whether a
    second run changes anything. */
module Seeding {
  import opened Catalogue

  /** The permissions by key, and the keys every role holds, by the name of the role. */
  datatype Tables = Tables(keys: set<Key>, held: map<string, set<Key>>)

  /** Roles hold only permissions that exist. */
  predicate Granted(t: Tables) {
    forall n :: n in t.held ==> t.held[n] <= t.keys
  }

  datatype LegacyGrant = LegacyGrant(key: Key, targets: set<Key>)

  const WAREHOUSE_VIEW: Key := Key(Warehouse, View)
  const WAREHOUSE_MANAGE: Key := Key(Warehouse, Manage)
  const LOCATIONS_VIEW: Key := Key(Locations, View)
  const LOCATIONS_MANAGE: Key := Key(Locations, Manage)

  function LegacyGrants(): seq<LegacyGrant> {
    [LegacyGrant(WAREHOUSE_VIEW, {Key(Warehouses, View)}), LegacyGrant(WAREHOUSE_MANAGE, Of(Warehouses, STRUCTURE_ACTIONS)),
     LegacyGrant(LOCATIONS_VIEW, {LOCATIONS_VIEW}), LegacyGrant(LOCATIONS_MANAGE, Of(Locations, STRUCTURE_ACTIONS))]
  }

  // ---- One run

  /** What the holder of a legacy key holds after its migration. */
  function Migrated(held: set<Key>, l: LegacyGrant, catalogue: set<Key>): set<Key> {
    if l.key in held then held - {l.key} + (l.targets * catalogue - {l.key}) else held
  }

  function MigrateOne(t: Tables, l: LegacyGrant, catalogue: set<Key>): Tables {
    Tables(if l.key in catalogue then t.keys else t.keys - {l.key},
           map n | n in t.held :: Migrated(t.held[n], l, catalogue))
  }

  function MigrateAll(t: Tables, legacies: seq<LegacyGrant>, catalogue: set<Key>): Tables
    decreases |legacies|
  {
    if legacies == [] then t
    else MigrateOne(MigrateAll(t, legacies[..|legacies| - 1], catalogue), legacies[|legacies| - 1], catalogue)
  }

  function Reconciled(t: Tables, role: Role, catalogue: set<Key>): Tables {
    Tables(t.keys, t.held[role.name := role.permissions * catalogue])
  }

  function ReconcileAll(t: Tables, roles: seq<Role>, catalogue: set<Key>): Tables
    decreases |roles|
  {
    if roles == [] then t
    else Reconciled(ReconcileAll(t, roles[..|roles| - 1], catalogue), roles[|roles| - 1], catalogue)
  }

  function Seeded(t: Tables, catalogue: set<Key>, legacies: seq<LegacyGrant>, roles: seq<Role>): Tables {
    ReconcileAll(MigrateAll(Tables(t.keys + catalogue, t.held), legacies, catalogue), roles, catalogue)
  }

  // ---- What it means for one role

  predicate IsSeeded(name: string, roles: seq<Role>) {
    exists i :: 0 <= i < |roles| && roles[i].name == name
  }

  lemma SeededLast(name: string, roles: seq<Role>)
    requires roles != []
    ensures IsSeeded(name, roles) <==> IsSeeded(name, roles[..|roles| - 1]) || roles[|roles| - 1].name == name
  {
    var last := |roles| - 1;
    if IsSeeded(name, roles[..last]) {
      var i :| 0 <= i < last && roles[..last][i].name == name;
      assert roles[i].name == name;
    }
    if IsSeeded(name, roles) {
      var i :| 0 <= i < |roles| && roles[i].name == name;
      assert i < last ==> roles[..last][i].name == name;
    }
  }

  /** Roles that are not seeded keep what they hold. */
  lemma {:induction false} OthersKept(t: Tables, roles: seq<Role>, catalogue: set<Key>, name: string)
    ensures var r := ReconcileAll(t, roles, catalogue);
            && r.keys == t.keys
            && (name in r.held <==> name in t.held || IsSeeded(name, roles))
            && (name in t.held && !IsSeeded(name, roles) ==> r.held[name] == t.held[name])
    decreases |roles|
  {
    if roles != [] {
      OthersKept(t, roles[..|roles| - 1], catalogue, name);
      SeededLast(name, roles);
      hide IsSeeded;
    }
  }

  /** No role after the given one has its name. */
  predicate LastOfName(roles: seq<Role>, i: nat)
    requires i < |roles|
  {
    forall j :: i < j < |roles| ==> roles[j].name != roles[i].name
  }

  /** Of roles of one name the last wins. */
  lemma {:induction false} ReconciledHolds(t: Tables, roles: seq<Role>, catalogue: set<Key>, i: nat)
    requires i < |roles| && LastOfName(roles, i)
    ensures var r := ReconcileAll(t, roles, catalogue);
            roles[i].name in r.held && r.held[roles[i].name] == roles[i].permissions * catalogue
    decreases |roles|
  {
    var last := |roles| - 1;
    if i < last {
      assert forall j :: i < j < last ==> roles[..last][j] == roles[j];
      ReconciledHolds(t, roles[..last], catalogue, i);
      assert roles[last].name != roles[i].name;
    }
  }

  /** What a role holds after the migration of all legacy keys. */
  function MigratedAll(held: set<Key>, legacies: seq<LegacyGrant>, catalogue: set<Key>): set<Key>
    decreases |legacies|
  {
    if legacies == [] then held
    else Migrated(MigratedAll(held, legacies[..|legacies| - 1], catalogue), legacies[|legacies| - 1], catalogue)
  }

  lemma {:induction false} MigrateAllHeld(t: Tables, legacies: seq<LegacyGrant>, catalogue: set<Key>)
    ensures var r := MigrateAll(t, legacies, catalogue);
            && r.held.Keys == t.held.Keys
            && (forall n :: n in t.held ==> r.held[n] == MigratedAll(t.held[n], legacies, catalogue))
            && (forall k :: k in r.keys <==>
                  k in t.keys && (k in catalogue || forall i :: 0 <= i < |legacies| ==> legacies[i].key != k))
    decreases |legacies|
  {
    if legacies != [] {
      MigrateAllHeld(t, legacies[..|legacies| - 1], catalogue);
      assert forall i :: 0 <= i < |legacies| - 1 ==> legacies[..|legacies| - 1][i] == legacies[i];
    }
  }

  // ---- The legacy keys

  predicate LegacyOnly(k: Key) {
    k == WAREHOUSE_VIEW || k == WAREHOUSE_MANAGE || k == LOCATIONS_MANAGE
  }

  lemma LegacyKeys()
    ensures LOCATIONS_VIEW in Permissions() && Key(Warehouses, View) in Permissions()
    ensures forall k :: LegacyOnly(k) ==> k !in Permissions()
    ensures Of(Warehouses, STRUCTURE_ACTIONS) <= Permissions() && Of(Locations, STRUCTURE_ACTIONS) <= Permissions()
    ensures forall k :: k in Of(Warehouses, STRUCTURE_ACTIONS) <==> k.resource == Warehouses && k.action in STRUCTURE_ACTIONS
    ensures forall k :: k in Of(Locations, STRUCTURE_ACTIONS) <==> k.resource == Locations && k.action in STRUCTURE_ACTIONS
  {
    hide Permissions;
    StructurePermissions(LOCATIONS_VIEW);
    StructurePermissions(Key(Warehouses, View));
    StructurePermissions(LOCATIONS_MANAGE);
    WarehouseIsLegacy(WAREHOUSE_VIEW);
    WarehouseIsLegacy(WAREHOUSE_MANAGE);
    forall k: Key | k.resource == Warehouses || k.resource == Locations
      ensures k in Permissions() <==> k.action in STRUCTURE_ACTIONS
    {
      StructurePermissions(k);
    }
  }

  /** The keys a role gains and keeps, in one step. */
  function Migration(held: set<Key>): set<Key> {
    held - {WAREHOUSE_VIEW, WAREHOUSE_MANAGE, LOCATIONS_VIEW, LOCATIONS_MANAGE}
    + (if WAREHOUSE_VIEW in held then {Key(Warehouses, View)} else {})
    + (if WAREHOUSE_MANAGE in held then Of(Warehouses, STRUCTURE_ACTIONS) else {})
    + (if LOCATIONS_MANAGE in held then Of(Locations, STRUCTURE_ACTIONS) else {})
  }

  lemma MigrationIs(held: set<Key>)
    ensures MigratedAll(held, LegacyGrants(), Permissions()) == Migration(held)
  {
    LegacyKeys();
    hide Permissions, Of;
    var l := LegacyGrants();
    var h1 := Migrated(held, l[0], Permissions());
    var h2 := Migrated(h1, l[1], Permissions());
    var h3 := Migrated(h2, l[2], Permissions());
    var h4 := Migrated(h3, l[3], Permissions());
    assert l[..4] == l && l[..4][..3] == l[..3] && l[..3][..2] == l[..2] && l[..2][..1] == l[..1] && l[..1][..0] == [];
    assert MigratedAll(held, l[..1], Permissions()) == h1;
    assert MigratedAll(held, l[..2], Permissions()) == h2;
    assert MigratedAll(held, l[..3], Permissions()) == h3;
    assert MigratedAll(held, l, Permissions()) == h4;
    forall k ensures k in h4 <==> k in Migration(held) {
    }
  }

  // ---- What a run reaches

  /** A run with the catalogue and the legacy keys of the seed. */
  function Run(t: Tables, roles: seq<Role>): Tables {
    Seeded(t, Permissions(), LegacyGrants(), roles)
  }

  lemma RunKeys(t: Tables, roles: seq<Role>, k: Key)
    ensures k in Run(t, roles).keys <==> (k in t.keys || k in Permissions()) && !LegacyOnly(k)
  {
    LegacyKeys();
    LegacyOnlyListed(k);
    hide Permissions, LegacyGrants, LegacyOnly;
    var t1 := Tables(t.keys + Permissions(), t.held);
    MigrateAllHeld(t1, LegacyGrants(), Permissions());
    OthersKept(MigrateAll(t1, LegacyGrants(), Permissions()), roles, Permissions(), "");
  }

  lemma LegacyOnlyListed(k: Key)
    ensures k !in Permissions() ==>
              (LegacyOnly(k) <==> exists i :: 0 <= i < |LegacyGrants()| && LegacyGrants()[i].key == k)
  {
    LegacyKeys();
    hide Permissions, Of;
    var l := LegacyGrants();
    assert l[0].key == WAREHOUSE_VIEW && l[1].key == WAREHOUSE_MANAGE && l[2].key == LOCATIONS_VIEW && l[3].key == LOCATIONS_MANAGE;
  }

  /** A role that is not seeded is migrated and nothing else. */
  lemma RunOthers(t: Tables, roles: seq<Role>, name: string)
    ensures var r := Run(t, roles);
            && (name in r.held <==> name in t.held || IsSeeded(name, roles))
            && (name in t.held && !IsSeeded(name, roles) ==> r.held[name] == Migration(t.held[name]))
  {
    hide Permissions, LegacyGrants, IsSeeded, Migration;
    var t1 := Tables(t.keys + Permissions(), t.held);
    MigrateAllHeld(t1, LegacyGrants(), Permissions());
    OthersKept(MigrateAll(t1, LegacyGrants(), Permissions()), roles, Permissions(), name);
    if name in t.held {
      MigrationIs(t.held[name]);
    }
  }

  /** From any tables, a run leaves every seeded role with exactly the catalogued keys it names. */
  lemma RunSeeds(t: Tables, roles: seq<Role>, i: nat)
    requires i < |roles| && LastOfName(roles, i)
    ensures var r := Run(t, roles);
            roles[i].name in r.held && r.held[roles[i].name] == roles[i].permissions * Permissions()
  {
    hide Permissions, LegacyGrants, LastOfName;
    ReconciledHolds(MigrateAll(Tables(t.keys + Permissions(), t.held), LegacyGrants(), Permissions()), roles, Permissions(), i);
  }

  lemma {:induction false} LastExists(roles: seq<Role>, name: string) returns (i: nat)
    requires IsSeeded(name, roles)
    ensures i < |roles| && roles[i].name == name && LastOfName(roles, i)
    decreases |roles|
  {
    var last := |roles| - 1;
    if roles[last].name == name {
      i := last;
    } else {
      SeededLast(name, roles);
      i := LastExists(roles[..last], name);
      forall j | i < j < |roles| ensures roles[j].name != roles[i].name {
        if j < last {
          assert roles[..last][j] == roles[j];
        }
      }
    }
  }

  lemma MigrationWithin(held: set<Key>)
    ensures forall k :: k in Migration(held) ==> k in held || k in Permissions()
    ensures forall k :: k in Migration(held) ==> !LegacyOnly(k)
  {
    LegacyKeys();
    hide Permissions, Of;
  }

  /** No role is left with a permission that is gone. */
  lemma RunGranted(t: Tables, roles: seq<Role>)
    requires Granted(t)
    ensures Granted(Run(t, roles))
  {
    hide Permissions, LegacyGrants, IsSeeded, Migration, Run, LastOfName, LegacyOnly;
    var r := Run(t, roles);
    forall n | n in r.held ensures r.held[n] <= r.keys {
      forall k | k in r.held[n] ensures k in r.keys {
        RunKeys(t, roles, k);
        RunOthers(t, roles, n);
        if IsSeeded(n, roles) {
          var i := LastExists(roles, n);
          RunSeeds(t, roles, i);
          CataloguedIsNotLegacy(k);
        } else {
          MigrationWithin(t.held[n]);
        }
      }
    }
  }

  lemma CataloguedIsNotLegacy(k: Key)
    ensures k in Permissions() ==> !LegacyOnly(k)
  {
    LegacyKeys();
    hide Permissions;
  }

  // ---- The roles of others

  /** A role that is not seeded and may view locations loses that, unless it could manage them. */
  lemma ViewIsLost(held: set<Key>)
    requires LOCATIONS_VIEW in held
    ensures LOCATIONS_VIEW in Migration(held) <==> LOCATIONS_MANAGE in held
  {
    LegacyKeys();
    hide Permissions, Of;
  }

  /** Migrating twice differs from migrating once exactly for who could manage locations: the view
      gained the first time is dropped the second. */
  lemma MigratedTwice(held: set<Key>)
    ensures Migration(Migration(held)) == Migration(held) <==> LOCATIONS_MANAGE !in held
    ensures Migration(Migration(held)) == Migration(held) - {LOCATIONS_VIEW}
    ensures LOCATIONS_VIEW !in Migration(Migration(held)) && LOCATIONS_MANAGE !in Migration(held)
  {
    LegacyKeys();
    hide Permissions, Of;
    var once := Migration(held);
    assert LOCATIONS_VIEW in once <==> LOCATIONS_MANAGE in held;
    assert WAREHOUSE_VIEW !in once && WAREHOUSE_MANAGE !in once && LOCATIONS_MANAGE !in once;
    assert Migration(once) == once - {LOCATIONS_VIEW};
  }

  // ---- Running again

  lemma SameKeys(t: Tables, roles: seq<Role>)
    ensures Run(Run(t, roles), roles).keys == Run(t, roles).keys
  {
    hide Run, LegacyOnly, Permissions;
    forall k ensures k in Run(Run(t, roles), roles).keys <==> k in Run(t, roles).keys {
      RunKeys(t, roles, k);
      RunKeys(Run(t, roles), roles, k);
    }
  }

  /** Whatever was there: a second run leaves the seeded roles as they are. */
  lemma SeededAgain(t: Tables, roles: seq<Role>, name: string)
    requires IsSeeded(name, roles)
    ensures name in Run(t, roles).held && name in Run(Run(t, roles), roles).held
    ensures Run(Run(t, roles), roles).held[name] == Run(t, roles).held[name]
  {
    hide Run, Permissions, LastOfName;
    var i := LastExists(roles, name);
    RunSeeds(t, roles, i);
    RunSeeds(Run(t, roles), roles, i);
  }

  predicate Stable(t: Tables, roles: seq<Role>, name: string) {
    name in t.held && !IsSeeded(name, roles) ==> LOCATIONS_MANAGE !in t.held[name]
  }

  lemma HeldAgain(t: Tables, roles: seq<Role>, name: string)
    ensures var r := Run(t, roles);
            var s := Run(r, roles);
            && (name in s.held <==> name in r.held)
            && (name in r.held ==> (s.held[name] == r.held[name] <==> Stable(t, roles, name)))
  {
    hide Run, Migration, IsSeeded;
    RunOthers(t, roles, name);
    RunOthers(Run(t, roles), roles, name);
    if IsSeeded(name, roles) {
      SeededAgain(t, roles, name);
    } else if name in t.held {
      MigratedTwice(t.held[name]);
    }
  }

  /** A second run changes nothing exactly when no role that is not seeded could manage locations
      by the legacy key. */
  lemma SecondRunIdle(t: Tables, roles: seq<Role>)
    ensures Run(Run(t, roles), roles) == Run(t, roles) <==> forall n :: n in t.held ==> Stable(t, roles, n)
  {
    hide Run, Stable;
    var r := Run(t, roles);
    var s := Run(r, roles);
    SameKeys(t, roles);
    forall n ensures (n in s.held <==> n in r.held) && (n in r.held ==> (s.held[n] == r.held[n] <==> Stable(t, roles, n))) {
      HeldAgain(t, roles, n);
    }
    forall n | n in t.held ensures n in r.held {
      RunOthers(t, roles, n);
    }
    assert (forall n :: n in r.held ==> Stable(t, roles, n)) ==> s.held == r.held;
    forall n | n in r.held && n !in t.held ensures Stable(t, roles, n) {
      AbsentIsStable(t, roles, n);
    }
  }

  lemma AbsentIsStable(t: Tables, roles: seq<Role>, name: string)
    requires name !in t.held
    ensures Stable(t, roles, name)
  {
  }

  /** A third run never changes anything. */
  lemma ThirdRunIdle(t: Tables, roles: seq<Role>)
    ensures Run(Run(Run(t, roles), roles), roles) == Run(Run(t, roles), roles)
  {
    hide Run, Migration;
    var r := Run(t, roles);
    forall n | n in r.held ensures Stable(r, roles, n) {
      RunOthers(t, roles, n);
      if !IsSeeded(n, roles) {
        MigratedTwice(t.held[n]);
      }
    }
    SecondRunIdle(r, roles);
  }

  // ---- The seeded roles

  function Names(): seq<string> {
    ["SUPER_ADMIN", "WAREHOUSE_ADMIN", "WAREHOUSE_MANAGER", "INBOUND_WORKER", "BATCH_WORKER", "RECEIVING_WORKER",
     "TEMP_STORAGE_WORKER", "SORTING_WORKER", "PUTAWAY_WORKER", "PACKING_WORKER", "SHIPPING_WORKER", "PICKER",
     "PACKER", "VIEWER"]
  }

  lemma RolesHaveNames(i: nat)
    requires i < |SeededRoles()|
    ensures |SeededRoles()| == |Names()| && SeededRoles()[i].name == Names()[i]
  {
    FloorCount();
    FloorNames();
    AdministratorNames();
    hide FloorRoles, SuperAdmin, WarehouseAdmin, WarehouseManager, ViewerRole;
  }

  lemma AdministratorNames()
    ensures SuperAdmin().name == "SUPER_ADMIN" && WarehouseAdmin().name == "WAREHOUSE_ADMIN"
    ensures WarehouseManager().name == "WAREHOUSE_MANAGER" && ViewerRole().name == "VIEWER"
  {
    hide Permissions, CommonView, OfAll, Of, Keys, Product;
  }

  lemma FloorNames()
    ensures |FloorRoles()| == 10
    ensures forall i :: 0 <= i < 10 ==> FloorRoles()[i].name == Names()[i + 3]
  {
    hide CommonView, OfAll, Keys;
  }

  lemma NamesDiffer(i: nat, j: nat)
    requires i < j < |Names()|
    ensures Names()[i] != Names()[j]
  {
    var names := Names();
    assert |names[0]| == 11 && |names[1]| == 15 && |names[2]| == 17 && |names[3]| == 14 && |names[4]| == 12;
    assert |names[5]| == 16 && |names[6]| == 19 && |names[7]| == 14 && |names[8]| == 14 && |names[9]| == 14;
    assert |names[10]| == 15 && |names[11]| == 6 && |names[12]| == 6 && |names[13]| == 6;
    assert names[3][0] == 'I' && names[7][0] == 'S' && names[8][1] == 'U' && names[9][1] == 'A';
    assert names[8][0] == 'P' && names[9][0] == 'P' && names[1][0] == 'W' && names[10][0] == 'S';
    assert names[11][1] == 'I' && names[12][1] == 'A' && names[13][0] == 'V' && names[11][0] == 'P' && names[12][0] == 'P';
  }

  lemma SeededNamesDiffer(i: nat)
    requires i < |SeededRoles()|
    ensures LastOfName(SeededRoles(), i)
  {
    hide SeededRoles, Names;
    RolesHaveNames(i);
    forall j | i < j < |SeededRoles()| ensures SeededRoles()[j].name != SeededRoles()[i].name {
      RolesHaveNames(j);
      NamesDiffer(i, j);
    }
  }

  /** From any tables, the run ends with every seeded role holding exactly its permissions. */
  lemma SeedingConverges(t: Tables, i: nat)
    requires Granted(t) && i < |SeededRoles()|
    ensures var r := Run(t, SeededRoles());
            var role := SeededRoles()[i];
            && Granted(r)
            && role.name in r.held && r.held[role.name] == role.permissions
            && Permissions() <= r.keys && (forall k :: LegacyOnly(k) ==> k !in r.keys)
  {
    hide Run, SeededRoles, Permissions, LegacyOnly;
    var r := Run(t, SeededRoles());
    SeededNamesDiffer(i);
    RunSeeds(t, SeededRoles(), i);
    RolesAreCatalogued(i);
    assert SeededRoles()[i].permissions * Permissions() == SeededRoles()[i].permissions;
    RunGranted(t, SeededRoles());
    forall k ensures (k in Permissions() ==> k in r.keys) && (LegacyOnly(k) ==> k !in r.keys) {
      RunKeys(t, SeededRoles(), k);
      CataloguedIsNotLegacy(k);
    }
  }

  lemma FloorIsSeeded(i: nat)
    requires i < |FloorRoles()|
    ensures i + 3 < |SeededRoles()| && SeededRoles()[i + 3] == FloorRoles()[i]
  {
    hide FloorRoles, SuperAdmin, WarehouseAdmin, WarehouseManager, ViewerRole;
  }

  /** Whatever the floor roles held before, afterwards none but the inbound role holds a key of the
      control centre or of the administration. */
  lemma FloorAfterRun(t: Tables, i: nat)
    requires Granted(t) && i < |FloorRoles()|
    ensures var r := Run(t, SeededRoles());
            var name := FloorRoles()[i].name;
            name in r.held && NoAdministration(r.held[name] - (if i == 0 then {Key(Stations, View)} else {}))
  {
    FloorIsSeeded(i);
    hide Run, SeededRoles, FloorRoles, NoAdministration, Permissions, Granted, LegacyOnly;
    SeedingConverges(t, i + 3);
    FloorIsNoAdministration(i);
  }

  /** A role of another name that could manage locations by the legacy key. */
  function LegacyTables(): Tables {
    Tables({LOCATIONS_MANAGE}, map["CUSTOM" := {LOCATIONS_MANAGE}])
  }

  /** The seed is not idempotent. */
  lemma SecondRunDiffers()
    ensures Granted(LegacyTables())
    ensures var once := Run(LegacyTables(), SeededRoles()); Run(once, SeededRoles()) != once
  {
    hide Run, SeededRoles, Names;
    if IsSeeded("CUSTOM", SeededRoles()) {
      var i :| 0 <= i < |SeededRoles()| && SeededRoles()[i].name == "CUSTOM";
      RolesHaveNames(i);
      CustomIsOther(i);
    }
    assert !Stable(LegacyTables(), SeededRoles(), "CUSTOM");
    SecondRunIdle(LegacyTables(), SeededRoles());
  }

  lemma CustomIsOther(i: nat)
    requires i < |Names()|
    ensures Names()[i] != "CUSTOM"
  {
    var names := Names();
    assert |names[11]| == 6 && |names[12]| == 6 && |names[13]| == 6;
    assert names[11][0] == 'P' && names[12][0] == 'P' && names[13][0] == 'V';
  }
}
