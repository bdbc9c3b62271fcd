/** What the clean-up means for users, stations and locations, when the workers are selected by
    their roles. */
module ResetResult {
  import opened Options
  import opened Schema
  import opened ReferentialDb
  import opened ResetPlan

  /** The names of the roles, by role id. */
  type RoleNames = map<Id, string>

  const OPERATIONAL_ROLES: set<string> :=
    {"INBOUND_WORKER", "RECEIVING_WORKER", "SORTING_WORKER", "PUTAWAY_WORKER", "PICKER", "PACKER",
     "PACKING_WORKER", "SHIPPING_WORKER"}

  const ADMIN_ROLES: set<string> := {"SUPER_ADMIN", "WAREHOUSE_ADMIN", "WAREHOUSE_MANAGER", "VIEWER"}

  /** The row of user_roles gives the user a role with one of the names. */
  predicate Gives(db: Db, names: RoleNames, ur: Row, user: Id, wanted: set<string>) {
    && ur in db.rows && ur.table == UserRoles
    && Link(Cascading(UserRolesUser), ur.id) in db.refs && db.refs[Link(Cascading(UserRolesUser), ur.id)] == user
    && Link(Cascading(UserRolesRole), ur.id) in db.refs
    && var role := db.refs[Link(Cascading(UserRolesRole), ur.id)];
       role in names && names[role] in wanted
  }

  ghost predicate HasRole(db: Db, names: RoleNames, user: Id, wanted: set<string>) {
    exists ur :: Gives(db, names, ur, user, wanted)
  }

  ghost predicate IsUser(db: Db, user: Id) {
    Row(Users, user) in db.rows
  }

  /** The users selected for deletion. */
  ghost function TestWorkers(db: Db, names: RoleNames): (r: set<Id>)
    ensures forall u :: u in r <==> IsUser(db, u) && HasRole(db, names, u, OPERATIONAL_ROLES)
  {
    set row | row in db.rows && row.table == Users && HasRole(db, names, row.id, OPERATIONAL_ROLES) :: row.id
  }

  /** The database after the clean-up. */
  ghost function AfterReset(db: Db, names: RoleNames, logs: set<Id>): (r: Db)
    requires Integrity(db)
    ensures RunAll(db, Plan(TestWorkers(db, names), logs)) == Some(r)
    ensures Integrity(r) && Outcome(db, r, TestWorkers(db, names), logs)
  {
    ResetIsSafe(db, TestWorkers(db, names), logs);
    RunAll(db, Plan(TestWorkers(db, names), logs)).value
  }

  /** Exactly the users without an operational role are left. */
  lemma UsersLeft(db: Db, names: RoleNames, logs: set<Id>, user: Id)
    requires Integrity(db)
    ensures IsUser(AfterReset(db, names, logs), user) <==>
              IsUser(db, user) && !HasRole(db, names, user, OPERATIONAL_ROLES)
  {
    UsersAreNoChild();
    hide Integrity, HasRole, RunAll, Plan, Child;
    var workers := TestWorkers(db, names);
    assert !Operational(Users);
    assert Losable(db, Row(Users, user), workers, logs) <==> OfWorker(db, Row(Users, user), workers);
    assert OfWorker(db, Row(Users, user), workers) <==> user in workers;
  }

  // ---- Master data

  predicate Fixed(t: Table) {
    match t
    case Warehouses | Zones | Aisles | Racks | Levels | Locations | Stations | StationDisplays | Devices | Roles |
      Permissions | RolePermissions | SystemSettings | ApiClients | Products | CategoryMaster |
      CategoryZoneMappings => true
    case _ => false
  }

  predicate WorkerAssignment(r: Ref) {
    r == Nulling(StationsAssignedWorker) || r == Nulling(DevicesAssignedWorker)
  }

  /** Every row of a fixed table is left. */
  lemma FixedRowsKept(db: Db, names: RoleNames, logs: set<Id>, row: Row)
    requires Integrity(db) && Fixed(row.table)
    ensures row in AfterReset(db, names, logs).rows <==> row in db.rows
  {
    FixedIsNotOfUsers(row.table);
    hide Integrity, HasRole, RunAll, Plan, Child, Fixed, Operational, UserKey;
  }

  lemma FixedIsNotOfUsers(t: Table)
    requires Fixed(t)
    ensures !Operational(t) && t != Users && t != AuditLogs
    ensures forall k: CascadeKey :: UserKey(k) ==> Child(Cascading(k)) != t
  {
  }

  /** And every reference of it, but the assignment of a worker who was deleted. */
  lemma FixedRefsKept(db: Db, names: RoleNames, logs: set<Id>, l: Link)
    requires Integrity(db) && Fixed(Child(l.ref)) && Source(l) in db.rows
    ensures var r := AfterReset(db, names, logs);
            && (l in r.refs <==>
                  l in db.refs && !(WorkerAssignment(l.ref) && db.refs[l] in TestWorkers(db, names)))
            && (l in r.refs ==> r.refs[l] == db.refs[l])
  {
    var r := AfterReset(db, names, logs);
    FixedRowsKept(db, names, logs, Source(l));
    FixedParent(l.ref);
    hide HasRole, RunAll, Plan, Child, Parent, Fixed, Operational, Losable, WorkerAssignment;
    if l in db.refs {
      assert Target(db, l) in db.rows;
      if WorkerAssignment(l.ref) {
        UsersLeft(db, names, logs, db.refs[l]);
      } else {
        FixedRowsKept(db, names, logs, Target(db, l));
      }
    }
  }

  /** Fixed tables refer only to fixed tables, but for the assigned workers. */
  lemma FixedParent(r: Ref)
    requires Fixed(Child(r))
    ensures if WorkerAssignment(r) then Parent(r) == Users else Fixed(Parent(r))
  {
    match r
    case Restricting(k) => FixedRestrict(k);
    case Cascading(k) => FixedCascade(k);
    case Nulling(k) => FixedSetNull(k);
  }

  lemma FixedRestrict(k: RestrictKey)
    requires Fixed(RestrictChild(k))
    ensures Fixed(RestrictParent(k))
  {
  }

  lemma FixedCascade(k: CascadeKey)
    requires Fixed(CascadeChild(k))
    ensures Fixed(CascadeParent(k))
  {
  }

  lemma FixedSetNull(k: SetNullKey)
    requires Fixed(SetNullChild(k))
    ensures if k.StationsAssignedWorker? || k.DevicesAssignedWorker? then SetNullParent(k) == Users
            else Fixed(SetNullParent(k))
  {
  }

  // ---- The report

  /** The report counts every user with an administrative role as preserved. That is right for
      all of them exactly when none has an operational role as well. */
  lemma AdminsPreserved(db: Db, names: RoleNames, logs: set<Id>)
    requires Integrity(db)
    ensures (forall u :: IsUser(db, u) && HasRole(db, names, u, ADMIN_ROLES) ==> IsUser(AfterReset(db, names, logs), u))
       <==> (forall u :: IsUser(db, u) && HasRole(db, names, u, ADMIN_ROLES) ==> !HasRole(db, names, u, OPERATIONAL_ROLES))
  {
    hide Integrity, HasRole, IsUser;
    forall u ensures IsUser(AfterReset(db, names, logs), u) <==> IsUser(db, u) && !HasRole(db, names, u, OPERATIONAL_ROLES) {
      UsersLeft(db, names, logs, u);
    }
  }

  /** A manager who also picks. */
  const MANAGER_NAMES: RoleNames := map["m" := "WAREHOUSE_MANAGER", "p" := "PICKER"]

  function ManagerDb(): Db {
    Db({Row(Users, "u"), Row(Roles, "m"), Row(Roles, "p"), Row(UserRoles, "um"), Row(UserRoles, "up")},
       map[Link(Cascading(UserRolesUser), "um") := "u", Link(Cascading(UserRolesRole), "um") := "m",
           Link(Cascading(UserRolesUser), "up") := "u", Link(Cascading(UserRolesRole), "up") := "p"])
  }

  lemma ManagerIsIntact()
    ensures Integrity(ManagerDb())
  {
    var db := ManagerDb();
    forall l: Link | Required(l.ref) && Source(l) in db.rows ensures l in db.refs {
      ManagerRefs(l.ref);
    }
  }

  lemma ManagerRefs(r: Ref)
    requires Required(r) && Child(r) in {Users, Roles, UserRoles}
    ensures r == Cascading(UserRolesUser) || r == Cascading(UserRolesRole)
  {
  }

  /** The report counts the manager as preserved; the clean-up deletes the row. */
  lemma ManagerIsDeleted(logs: set<Id>)
    ensures Integrity(ManagerDb())
    ensures IsUser(ManagerDb(), "u") && HasRole(ManagerDb(), MANAGER_NAMES, "u", ADMIN_ROLES)
    ensures !IsUser(AfterReset(ManagerDb(), MANAGER_NAMES, logs), "u")
  {
    ManagerIsIntact();
    var db := ManagerDb();
    assert Gives(db, MANAGER_NAMES, Row(UserRoles, "um"), "u", ADMIN_ROLES);
    assert Gives(db, MANAGER_NAMES, Row(UserRoles, "up"), "u", OPERATIONAL_ROLES);
    UsersLeft(db, MANAGER_NAMES, logs, "u");
  }

  // ---- The checks after the clean-up

  /** A row the orphan checks count: its reference points nowhere, or is missing though required. */
  ghost predicate Orphan(db: Db, r: Ref, row: Row) {
    && row in db.rows && row.table == Child(r)
    && var l := Link(r, row.id);
       if l in db.refs then Target(db, l) !in db.rows else Required(r)
  }

  /** The checks find nothing, whatever reference they look at. */
  lemma NoOrphans(db: Db, names: RoleNames, logs: set<Id>, r: Ref, row: Row)
    requires Integrity(db)
    ensures !Orphan(AfterReset(db, names, logs), r, row)
  {
    hide Child, Parent, Required, HasRole, RunAll, Plan, Outcome;
    assert row.table == Child(r) ==> Source(Link(r, row.id)) == row;
  }

  /** Nobody with an operational role is left, and a second clean-up changes nothing. */
  lemma SecondResetIdle(db: Db, names: RoleNames, logs: set<Id>)
    requires Integrity(db)
    ensures var r := AfterReset(db, names, logs);
            TestWorkers(r, names) == {} && SameData(r, AfterReset(r, names, logs))
  {
    hide Integrity, RunAll, Plan, Child, Gives, Operational, SameData;
    var r := AfterReset(db, names, logs);
    forall u ensures u !in TestWorkers(r, names) {
      if u in TestWorkers(r, names) {
        RolesBefore(db, r, names, logs, u);
        UsersLeft(db, names, logs, u);
      }
    }
    forall row | row in r.rows ensures !Losable(r, row, {}, logs) {
    }
    SameRows(r, AfterReset(r, names, logs), logs);
  }

  /** The same rows, with the same references. */
  ghost predicate SameData(db: Db, after: Db) {
    && after.rows == db.rows
    && forall l: Link :: Source(l) in db.rows ==>
         (l in after.refs <==> l in db.refs) && (l in db.refs ==> after.refs[l] == db.refs[l])
  }

  lemma SameRows(db: Db, after: Db, logs: set<Id>)
    requires Integrity(db) && Outcome(db, after, {}, logs) && forall row :: row in db.rows ==> !Losable(db, row, {}, logs)
    ensures SameData(db, after)
  {
    hide Losable, Child, Parent, Required;
  }

  lemma RolesBefore(db: Db, r: Db, names: RoleNames, logs: set<Id>, user: Id)
    requires Outcome(db, r, TestWorkers(db, names), logs) && HasRole(r, names, user, OPERATIONAL_ROLES)
    ensures HasRole(db, names, user, OPERATIONAL_ROLES)
  {
    hide Losable, Child, Parent;
    var ur :| Gives(r, names, ur, user, OPERATIONAL_ROLES);
    assert Gives(db, names, ur, user, OPERATIONAL_ROLES);
  }
}
