/** The clean-up of a test database: twenty steps in one transaction, and what they leave. */
module ResetPlan {
  import opened Options
  import opened ReferentialDb
  import opened Schema

  // ---- Statements

  datatype Statement =
    | ClearReference(key: SetNullKey, to: set<Id>)
    | ClearAll(column: RestrictKey)
    | DeleteAll(table: Table)
    | DeleteById(from: Table, ids: set<Id>)
    | DeleteReferring(through: CascadeKey, users: set<Id>)

  ghost function Selected(db: Db, s: Statement): set<Row> {
    match s
    case ClearReference(_, _) => {}
    case ClearAll(_) => {}
    case DeleteAll(t) => set row | row in db.rows && row.table == t
    case DeleteById(t, ids) => set row | row in db.rows && row.table == t && row.id in ids
    case DeleteReferring(k, ids) =>
      set row | row in db.rows && row.table == CascadeChild(k)
                && Link(Cascading(k), row.id) in db.refs && db.refs[Link(Cascading(k), row.id)] in ids
  }

  /** Updates always succeed; a deletion fails when a row restricts it. */
  ghost function Execute(db: Db, s: Statement): Option<Db> {
    match s
    case ClearReference(k, ids) =>
      Some(Db(db.rows, map l | l in db.refs && !(l.ref == Nulling(k) && db.refs[l] in ids) :: db.refs[l]))
    case ClearAll(k) => Some(Db(db.rows, map l | l in db.refs && l.ref != Restricting(k) :: db.refs[l]))
    case _ => if Allowed(db, Selected(db, s)) then Some(Deleted(db, Selected(db, s))) else None
  }

  /** The statements in turn; on the first failure the transaction is rolled back. */
  ghost function RunAll(db: Db, plan: seq<Statement>): Option<Db>
    decreases |plan|
  {
    if plan == [] then Some(db) else
    match Execute(db, plan[0])
    case None => None
    case Some(next) => RunAll(next, plan[1..])
  }

  /** The tables the plan empties, directly or by cascade. */
  predicate Operational(t: Table) {
    match t
    case ShippingVerifications | OutboundShipments | ArticleUnits | OperationalContainers | OperationCorrections |
      OperationalExceptions | CartonPlacements | PutawaySessions | WarehouseCartons | WarehouseShipments |
      ReceivingSessions | WorkerTaskAssignments | ExpectedArrivalItems | ExpectedArrivals | PhysicalItems |
      OrderItems | WarehouseOrders | ReceivingCartons | ReceivingProducts | ReceivingScanEvents |
      ReceivingDiscrepancies | ReceivingWorkerLogs | ReceivingReports | ReceivingReportLines | ReceivingReportPhotos => true
    case _ => false
  }

  /** Steps 3 to 17, which do not depend on the workers. */
  function EmptyingSteps(): seq<Statement> {
    [DeleteAll(ShippingVerifications), DeleteAll(OutboundShipments), DeleteAll(ArticleUnits),
     DeleteAll(OperationalContainers), DeleteAll(OperationCorrections), DeleteAll(OperationalExceptions),
     DeleteAll(CartonPlacements), DeleteAll(PutawaySessions), ClearAll(WarehouseCartonsCurrentLocation),
     DeleteAll(WarehouseCartons), DeleteAll(WarehouseShipments), DeleteAll(ReceivingSessions),
     DeleteAll(WorkerTaskAssignments), DeleteAll(ExpectedArrivalItems), DeleteAll(ExpectedArrivals),
     DeleteAll(PhysicalItems), DeleteAll(OrderItems), DeleteAll(WarehouseOrders)]
  }

  function FirstSteps(workers: set<Id>): seq<Statement> {
    if workers == {} then []
    else [ClearReference(StationsAssignedWorker, workers), ClearReference(DevicesAssignedWorker, workers)]
  }

  function LastSteps(workers: set<Id>, logs: set<Id>): seq<Statement> {
    (if workers == {} then []
     else [DeleteReferring(SessionsUser, workers), DeleteReferring(UserRolesUser, workers), DeleteById(Users, workers)])
    + [DeleteById(AuditLogs, logs)]
  }

  /** The whole transaction, for the workers found and the ids of the operational log entries. */
  function Plan(workers: set<Id>, logs: set<Id>): seq<Statement> {
    FirstSteps(workers) + EmptyingSteps() + LastSteps(workers, logs)
  }

  // ---- What every step keeps

  predicate UserKey(k: CascadeKey) {
    k.UserRolesUser? || k.SessionsUser? || k.PushTokensUser?
  }

  /** The row is one of the workers, or a role, session or push token of one. */
  ghost predicate OfWorker(db: Db, row: Row, workers: set<Id>) {
    || (row.table == Users && row.id in workers)
    || (exists k: CascadeKey :: UserKey(k) && Refers(db, Cascading(k), row, workers))
  }

  predicate Refers(db: Db, r: Ref, row: Row, ids: set<Id>) {
    Child(r) == row.table && Link(r, row.id) in db.refs && db.refs[Link(r, row.id)] in ids
  }

  /** The rows the plan may delete. */
  ghost predicate Losable(db0: Db, row: Row, workers: set<Id>, logs: set<Id>) {
    Operational(row.table) || OfWorker(db0, row, workers) || (row.table == AuditLogs && row.id in logs)
  }

  /** The references it may set to null: into or out of the tables it empties, and to workers. */
  predicate Clearable(db0: Db, l: Link, workers: set<Id>) {
    || Operational(Child(l.ref))
    || Operational(Parent(l.ref))
    || (l.ref.Nulling? && Parent(l.ref) == Users && l in db0.refs && db0.refs[l] in workers)
  }

  ghost predicate RowsKept(db0: Db, db: Db, workers: set<Id>, logs: set<Id>) {
    && (forall row :: row in db.rows ==> row in db0.rows)
    && (forall row :: row in db0.rows && row !in db.rows ==> Losable(db0, row, workers, logs))
  }

  ghost predicate RefsKept(db0: Db, db: Db, workers: set<Id>) {
    && (forall l :: l in db.refs ==> l in db0.refs && db.refs[l] == db0.refs[l])
    && (forall l :: l in db0.refs && l !in db.refs ==> Clearable(db0, l, workers))
  }

  /** Once the tables in done were emptied: integrity holds, and of the database at the start
      nothing is missing but what the plan may delete. */
  ghost predicate Kept(db0: Db, db: Db, done: set<Table>, workers: set<Id>, logs: set<Id>) {
    Integrity(db) && AllEmpty(db, done) && RowsKept(db0, db, workers, logs) && RefsKept(db0, db, workers)
  }

  /** Nothing hinders a deletion within these tables: no cascade leaves them, and what restricts
      them is empty already. */
  ghost predicate Free(reach: set<Table>, done: set<Table>) {
    Closed(reach) && Unhindered(reach, done)
  }

  /** The deletion takes only what the plan may delete. */
  ghost predicate Bounded(db0: Db, db: Db, gone: set<Row>, workers: set<Id>, logs: set<Id>) {
    && (forall row :: Doomed(db, gone, row) ==> Losable(db0, row, workers, logs))
    && (forall l: Link :: l.ref.Nulling? && Affected(db, gone, l) ==> Clearable(db0, l, workers))
  }

  lemma DeleteStep(db0: Db, db: Db, gone: set<Row>, reach: set<Table>, done: set<Table>, workers: set<Id>, logs: set<Id>)
    requires Kept(db0, db, done, workers, logs)
    requires Within(gone, reach) && Free(reach, done) && Bounded(db0, db, gone, workers, logs)
    ensures Allowed(db, gone) && Kept(db0, Deleted(db, gone), done, workers, logs)
  {
    hide Child, Parent, Losable, Clearable, Doomed, Closed, Unhindered, Integrity, Deleted, Affected, Allowed;
    UnhinderedIsAllowed(db, gone, reach, done);
    DeletionKeepsIntegrity(db, gone);
  }

  // ---- Emptying tables

  /** The tables reached when the given table is emptied. */
  function Reach(t: Table): set<Table> {
    match t
    case OutboundShipments => {OutboundShipments, ShippingVerifications}
    case WarehouseCartons => {WarehouseCartons, CartonPlacements}
    case WarehouseShipments => {WarehouseShipments, WarehouseCartons, CartonPlacements}
    case ReceivingSessions => Receiving()
    case ExpectedArrivals => {ExpectedArrivals, ExpectedArrivalItems} + Receiving()
    case ReceivingReports => {ReceivingReports, ReceivingReportLines, ReceivingReportPhotos}
    case _ => {t}
  }

  function Receiving(): set<Table> {
    {ReceivingSessions, ReceivingCartons, ReceivingScanEvents, ReceivingProducts, ReceivingDiscrepancies,
     ReceivingWorkerLogs, ReceivingReports, ReceivingReportLines, ReceivingReportPhotos}
  }

  ghost predicate Inside(reach: set<Table>) {
    forall t :: t in reach ==> Operational(t)
  }

  /** Every table emptied is free to be, by the tables emptied before. */
  ghost predicate Safe(plan: seq<Statement>, done: set<Table>) {
    plan == [] ||
    match plan[0]
    case DeleteAll(t) =>
      t in Reach(t) && Inside(Reach(t)) && Free(Reach(t), done) && Safe(plan[1..], done + {t})
    case ClearAll(k) => Operational(RestrictChild(k)) && !Required(Restricting(k)) && Safe(plan[1..], done)
    case _ => false
  }

  function Emptied(plan: seq<Statement>): set<Table> {
    if plan == [] then {} else (if plan[0].DeleteAll? then {plan[0].table} else {}) + Emptied(plan[1..])
  }

  lemma EmptyStep(db0: Db, db: Db, done: set<Table>, workers: set<Id>, logs: set<Id>, t: Table)
    requires Kept(db0, db, done, workers, logs)
    requires t in Reach(t) && Inside(Reach(t)) && Free(Reach(t), done)
    ensures var r := Execute(db, DeleteAll(t)); r.Some? && Kept(db0, r.value, done + {t}, workers, logs)
  {
    hide Child, Parent, Operational, Reach, Closed, Unhindered, Integrity, Required, OfWorker, Allowed;
    var gone := Selected(db, DeleteAll(t));
    ReachBounds(db0, db, gone, Reach(t), workers, logs);
    DeleteStep(db0, db, gone, Reach(t), done, workers, logs);
  }

  lemma ReachBounds(db0: Db, db: Db, gone: set<Row>, reach: set<Table>, workers: set<Id>, logs: set<Id>)
    requires Within(gone, reach) && Closed(reach) && Inside(reach)
    ensures Bounded(db0, db, gone, workers, logs)
  {
    hide Child, Parent, Operational, Doomed, Closed, OfWorker;
    forall row | Doomed(db, gone, row) ensures row.table in reach {
      DoomedInReach(db, gone, reach, row);
    }
  }

  lemma UpdateKeepsIntegrity(db: Db, next: Db)
    requires Integrity(db) && next.rows == db.rows
    requires forall l :: l in next.refs ==> l in db.refs && next.refs[l] == db.refs[l]
    requires forall l :: l in db.refs && l !in next.refs ==> !Required(l.ref)
    ensures Integrity(next)
  {
    hide Child, Parent, Required;
    forall l | l in next.refs && Source(l) in next.rows ensures Target(next, l) in next.rows {
      assert Target(next, l) == Target(db, l);
    }
  }

  lemma ClearAllStep(db0: Db, db: Db, done: set<Table>, workers: set<Id>, logs: set<Id>, k: RestrictKey)
    requires Kept(db0, db, done, workers, logs)
    requires Operational(RestrictChild(k)) && !Required(Restricting(k))
    ensures var r := Execute(db, ClearAll(k)); r.Some? && Kept(db0, r.value, done, workers, logs)
  {
    assert Child(Restricting(k)) == RestrictChild(k);
    hide Child, Parent, Operational, Required, RestrictChild, RestrictParent, Integrity, OfWorker;
    var next := Execute(db, ClearAll(k)).value;
    UpdateKeepsIntegrity(db, next);
  }

  lemma {:induction false} SafeRuns(db0: Db, db: Db, done: set<Table>, workers: set<Id>, logs: set<Id>, plan: seq<Statement>)
    requires Kept(db0, db, done, workers, logs) && Safe(plan, done)
    ensures var r := RunAll(db, plan); r.Some? && Kept(db0, r.value, done + Emptied(plan), workers, logs)
    decreases |plan|
  {
    hide Kept, Free, Reach, Operational, Required, Execute;
    if plan == [] {
      assert done + Emptied(plan) == done;
    } else {
      var next := Execute(db, plan[0]);
      match plan[0]
      case DeleteAll(t) =>
        EmptyStep(db0, db, done, workers, logs, t);
        SafeRuns(db0, next.value, done + {t}, workers, logs, plan[1..]);
        assert done + {t} + Emptied(plan[1..]) == done + Emptied(plan);
      case ClearAll(k) =>
        ClearAllStep(db0, db, done, workers, logs, k);
        SafeRuns(db0, next.value, done, workers, logs, plan[1..]);
        assert done + Emptied(plan[1..]) == done + Emptied(plan);
    }
  }

  /** The tables a deletion cascades into directly, among those of the plan. */
  function Cascaded(t: Table): set<Table> {
    match t
    case OutboundShipments => {ShippingVerifications}
    case WarehouseCartons => {CartonPlacements}
    case WarehouseShipments => {WarehouseCartons}
    case ReceivingSessions => {ReceivingCartons, ReceivingScanEvents, ReceivingProducts, ReceivingDiscrepancies,
                               ReceivingWorkerLogs, ReceivingReports}
    case ReceivingReports => {ReceivingReportLines, ReceivingReportPhotos}
    case ExpectedArrivals => {ExpectedArrivalItems, ReceivingSessions}
    case _ => {}
  }

  lemma CascadedFrom(k: CascadeKey)
    requires Operational(CascadeParent(k))
    ensures CascadeChild(k) in Cascaded(CascadeParent(k))
  {
  }

  /** In the plan only orders and their items are restricted. */
  lemma RestrictedTables(k: RestrictKey)
    requires Operational(RestrictParent(k))
    ensures (RestrictParent(k) == OrderItems && RestrictChild(k) == PhysicalItems)
         || (RestrictParent(k) == WarehouseOrders && RestrictChild(k) in {OrderItems, OutboundShipments})
  {
  }

  lemma ReachedIsOperational(t: Table, p: Table)
    requires Operational(t) && p in Reach(t)
    ensures Operational(p) && (p == OrderItems || p == WarehouseOrders ==> t == p)
  {
    if Composite(t) {
      CompositeReach(t, p);
    } else {
      assert p == t;
    }
  }

  predicate Composite(t: Table) {
    t.OutboundShipments? || t.WarehouseCartons? || t.WarehouseShipments? || t.ReceivingSessions? ||
    t.ReceivingReports? || t.ExpectedArrivals?
  }

  lemma CompositeReach(t: Table, p: Table)
    requires Composite(t) && p in Reach(t)
    ensures Operational(p) && !p.OrderItems? && !p.WarehouseOrders?
  {
    if t.ReceivingSessions? || (t.ExpectedArrivals? && p in Receiving()) {
      ReceivingIsOperational(p);
    }
  }

  lemma ReceivingIsOperational(p: Table)
    requires p in Receiving()
    ensures Operational(p) && !p.OrderItems? && !p.WarehouseOrders?
  {
  }

  lemma ReachFollows(t: Table, p: Table)
    requires p in Reach(t)
    ensures Cascaded(p) <= Reach(t)
  {
    if Reach(t) == {t} {
      SingleReach(t);
    }
  }

  lemma SingleReach(t: Table)
    requires Reach(t) == {t}
    ensures Cascaded(t) == {}
  {
    assert t.OutboundShipments? ==> ShippingVerifications in Reach(t);
    assert t.WarehouseCartons? ==> CartonPlacements in Reach(t);
    assert t.WarehouseShipments? ==> CartonPlacements in Reach(t);
    assert t.ReceivingSessions? ==> ReceivingCartons in Reach(t);
    assert t.ReceivingReports? ==> ReceivingReportLines in Reach(t);
    assert t.ExpectedArrivals? ==> ReceivingSessions in Reach(t);
  }

  /** Every table emptied may be: order items once the physical items are gone, orders once their
      items and shipments are. */
  lemma FreeTables(t: Table, done: set<Table>)
    requires t == OrderItems ==> PhysicalItems in done
    requires t == WarehouseOrders ==> OrderItems in done && OutboundShipments in done
    requires Operational(t)
    ensures t in Reach(t) && Inside(Reach(t)) && Free(Reach(t), done)
  {
    hide Operational, Cascaded, CascadeParent, CascadeChild, RestrictParent, RestrictChild;
    InReach(t);
    hide Reach;
    forall p | p in Reach(t) ensures Operational(p) {
      ReachedIsOperational(t, p);
    }
    forall k: CascadeKey | CascadeParent(k) in Reach(t) ensures CascadeChild(k) in Reach(t) {
      ReachFollows(t, CascadeParent(k));
      CascadedFrom(k);
    }
    forall k: RestrictKey | RestrictParent(k) in Reach(t) ensures RestrictChild(k) in done {
      ReachedIsOperational(t, RestrictParent(k));
      RestrictedTables(k);
    }
  }

  lemma InReach(t: Table)
    ensures t in Reach(t)
  {
  }

  /** Among the first i statements, one empties the table. */
  ghost predicate EmptiedBy(plan: seq<Statement>, i: nat, t: Table) {
    exists j :: 0 <= j < i && j < |plan| && plan[j] == DeleteAll(t)
  }

  ghost predicate Ordered(plan: seq<Statement>, i: nat)
    requires i < |plan|
  {
    match plan[i]
    case DeleteAll(t) =>
      && Operational(t)
      && (t == OrderItems ==> EmptiedBy(plan, i, PhysicalItems))
      && (t == WarehouseOrders ==> EmptiedBy(plan, i, OrderItems) && EmptiedBy(plan, i, OutboundShipments))
    case ClearAll(k) => Operational(RestrictChild(k)) && !Required(Restricting(k))
    case _ => false
  }

  lemma {:induction false} OrderedIsSafe(plan: seq<Statement>, i: nat, done: set<Table>)
    requires i <= |plan| && forall j :: 0 <= j < |plan| ==> Ordered(plan, j)
    requires forall t :: EmptiedBy(plan, i, t) ==> t in done
    ensures Safe(plan[i..], done)
    decreases |plan| - i
  {
    hide Reach, Operational, Free, Inside, Required, RestrictChild;
    if i < |plan| {
      assert plan[i..][1..] == plan[i + 1..];
      assert Ordered(plan, i);
      if plan[i].DeleteAll? {
        FreeTables(plan[i].table, done);
        OrderedIsSafe(plan, i + 1, done + {plan[i].table});
      } else {
        OrderedIsSafe(plan, i + 1, done);
      }
    }
  }

  lemma EmptyingIsOrdered(i: nat)
    requires i < |EmptyingSteps()|
    ensures Ordered(EmptyingSteps(), i)
  {
    var p := EmptyingSteps();
    assert p[1] == DeleteAll(OutboundShipments) && p[15] == DeleteAll(PhysicalItems) && p[16] == DeleteAll(OrderItems);
  }

  /** A table whose rows need a row of an emptied table is empty as well. */
  lemma FollowStep(db0: Db, db: Db, done: set<Table>, workers: set<Id>, logs: set<Id>, k: CascadeKey)
    requires Kept(db0, db, done, workers, logs) && CascadeParent(k) in done
    ensures Kept(db0, db, done + {CascadeChild(k)}, workers, logs)
  {
    assert Required(Cascading(k)) && Child(Cascading(k)) == CascadeChild(k) && Parent(Cascading(k)) == CascadeParent(k);
    hide Child, Parent, Required, RowsKept, RefsKept, CascadeChild, CascadeParent;
    OrphansGone(db, Cascading(k), done);
  }

  // ---- The workers

  lemma ClearWorkers(db0: Db, db: Db, done: set<Table>, workers: set<Id>, logs: set<Id>, k: SetNullKey)
    requires Kept(db0, db, done, workers, logs) && SetNullParent(k) == Users
    ensures var r := Execute(db, ClearReference(k, workers)); r.Some? && Kept(db0, r.value, done, workers, logs)
  {
    assert Parent(Nulling(k)) == Users && !Required(Nulling(k));
    hide Child, Parent, Operational, Required, SetNullParent, Integrity;
    var next := Execute(db, ClearReference(k, workers)).value;
    UpdateKeepsIntegrity(db, next);
  }

  function UserTables(): set<Table> {
    {Users, UserRoles, Sessions, PushTokens}
  }

  lemma UserCascades(k: CascadeKey)
    ensures CascadeParent(k) in UserTables() ==>
              CascadeParent(k) == Users && UserKey(k) && CascadeChild(k) in UserTables()
  {
  }

  lemma UserRestricts(k: RestrictKey)
    requires RestrictParent(k) in UserTables()
    ensures RestrictChild(k) == WorkerTaskAssignments || RestrictChild(k) == OperationCorrections
  {
  }

  lemma UserNulls(k: SetNullKey)
    requires SetNullParent(k) in UserTables()
    ensures SetNullParent(k) == Users
  {
  }

  lemma UsersFree(done: set<Table>)
    requires WorkerTaskAssignments in done && OperationCorrections in done
    ensures Free(UserTables(), done)
  {
    hide UserTables, CascadeParent, CascadeChild, RestrictParent, RestrictChild;
    forall k: CascadeKey | CascadeParent(k) in UserTables() ensures CascadeChild(k) in UserTables() {
      UserCascades(k);
    }
    forall k: RestrictKey | RestrictParent(k) in UserTables() ensures RestrictChild(k) in done {
      UserRestricts(k);
    }
  }

  /** A deletion of workers and their rows takes only rows of workers with it. */
  lemma WorkersOnly(db: Db, gone: set<Row>, workers: set<Id>, row: Row)
    requires Within(gone, UserTables()) && Closed(UserTables())
    requires forall g :: g in gone ==> OfWorker(db, g, workers)
    requires Doomed(db, gone, row)
    ensures OfWorker(db, row, workers)
  {
    hide UserTables, CascadeParent, CascadeChild, UserKey, Depth, Closed;
    if row !in gone {
      var l :| l in db.refs && CascadesInto(l, row) && Doomed(db, gone, Target(db, l));
      DoomedInReach(db, gone, UserTables(), Target(db, l));
      UserCascades(l.ref.cascade);
      WorkerDoomed(db, gone, workers, Target(db, l));
      assert l == Link(Cascading(l.ref.cascade), row.id);
      assert Refers(db, Cascading(l.ref.cascade), row, workers);
    }
  }

  /** Of the users, only workers go. */
  lemma WorkerDoomed(db: Db, gone: set<Row>, workers: set<Id>, row: Row)
    requires forall g :: g in gone ==> OfWorker(db, g, workers)
    requires Doomed(db, gone, row) && row.table == Users
    ensures row.id in workers
  {
    assert Depth(Users) == 0;
    OnlyNamed(db, gone, row);
    UsersAreNoChild();
    hide Child;
  }

  lemma UsersAreNoChild()
    ensures forall k: CascadeKey :: UserKey(k) ==> Child(Cascading(k)) != Users
  {
  }

  lemma WorkerStep(db0: Db, db: Db, gone: set<Row>, done: set<Table>, workers: set<Id>, logs: set<Id>)
    requires Kept(db0, db, done, workers, logs) && Within(gone, UserTables())
    requires forall g :: g in gone ==> OfWorker(db, g, workers)
    requires WorkerTaskAssignments in done && OperationCorrections in done
    ensures Allowed(db, gone) && Kept(db0, Deleted(db, gone), done, workers, logs)
  {
    hide UserTables, Child, Operational, Doomed, Integrity, AllEmpty, RowsKept, Required, OfWorker;
    UsersFree(done);
    forall row | Doomed(db, gone, row) ensures Losable(db0, row, workers, logs) {
      WorkersOnly(db, gone, workers, row);
      OfWorkerBefore(db0, db, workers, row);
    }
    forall l: Link | l.ref.Nulling? && Affected(db, gone, l) ensures Clearable(db0, l, workers) {
      DoomedInReach(db, gone, UserTables(), Target(db, l));
      UserNulls(l.ref.setNull);
      WorkerDoomed(db, gone, workers, Target(db, l));
    }
    DeleteStep(db0, db, gone, UserTables(), done, workers, logs);
  }

  lemma OfWorkerBefore(db0: Db, db: Db, workers: set<Id>, row: Row)
    requires RefsKept(db0, db, workers) && OfWorker(db, row, workers)
    ensures OfWorker(db0, row, workers)
  {
    hide Child, UserKey, Clearable;
    if !(row.table == Users && row.id in workers) {
      var k: CascadeKey :| UserKey(k) && Refers(db, Cascading(k), row, workers);
      assert Refers(db0, Cascading(k), row, workers);
    }
  }

  lemma DeleteWorkersStep(db0: Db, db: Db, done: set<Table>, workers: set<Id>, logs: set<Id>, s: Statement)
    requires Kept(db0, db, done, workers, logs)
    requires WorkerTaskAssignments in done && OperationCorrections in done
    requires s == DeleteById(Users, workers) || (s.DeleteReferring? && UserKey(s.through) && s.users == workers)
    ensures var r := Execute(db, s); r.Some? && Kept(db0, r.value, done, workers, logs)
    ensures Execute(db, s).value.rows <= db.rows && Selected(db, s) !! Execute(db, s).value.rows
  {
    hide Kept, Allowed, Child;
    var gone := Selected(db, s);
    forall g | g in gone ensures OfWorker(db, g, workers) && g.table in UserTables() {
      if s.DeleteReferring? {
        UserChild(s.through);
        assert Refers(db, Cascading(s.through), g, workers);
      }
    }
    WorkerStep(db0, db, gone, done, workers, logs);
    GoneIsDoomed(db, gone);
  }

  lemma UserChild(k: CascadeKey)
    requires UserKey(k)
    ensures Child(Cascading(k)) == CascadeChild(k) && CascadeChild(k) in UserTables() && Parent(Cascading(k)) == Users
  {
  }

  lemma GoneIsDoomed(db: Db, gone: set<Row>)
    ensures gone !! Deleted(db, gone).rows
  {
  }

  lemma LogsUnbound()
    ensures (forall k: CascadeKey :: CascadeParent(k) != AuditLogs) && (forall k: RestrictKey :: RestrictParent(k) != AuditLogs)
    ensures forall k: SetNullKey :: SetNullParent(k) != AuditLogs
    ensures Depth(AuditLogs) == 0
  {
  }

  lemma DeleteLogsStep(db0: Db, db: Db, done: set<Table>, workers: set<Id>, logs: set<Id>)
    requires Kept(db0, db, done, workers, logs)
    ensures var r := Execute(db, DeleteById(AuditLogs, logs)); r.Some? && Kept(db0, r.value, done, workers, logs)
    ensures var s := DeleteById(AuditLogs, logs);
            Execute(db, s).value.rows <= db.rows && Selected(db, s) !! Execute(db, s).value.rows
  {
    LogsUnbound();
    hide Kept, Allowed, Doomed, CascadeParent, CascadeChild, RestrictParent, RestrictChild, SetNullParent, SetNullChild, Depth, Operational, OfWorker;
    var reach := {AuditLogs};
    var gone := Selected(db, DeleteById(AuditLogs, logs));
    forall row | Doomed(db, gone, row) ensures row.table == AuditLogs && row in gone {
      DoomedInReach(db, gone, reach, row);
      OnlyNamed(db, gone, row);
    }
    DeleteStep(db0, db, gone, reach, done, workers, logs);
    GoneIsDoomed(db, gone);
  }

  // ---- The whole transaction

  lemma {:induction false} RunBoth(db: Db, p: seq<Statement>, q: seq<Statement>)
    requires RunAll(db, p).Some?
    ensures RunAll(db, p + q) == RunAll(RunAll(db, p).value, q)
    decreases |p|
  {
    hide Execute;
    if p == [] {
      assert p + q == q;
    } else {
      assert (p + q)[1..] == p[1..] + q;
      RunBoth(Execute(db, p[0]).value, p[1..], q);
    }
  }

  lemma FirstRuns(db0: Db, workers: set<Id>, logs: set<Id>)
    requires Integrity(db0)
    ensures var r := RunAll(db0, FirstSteps(workers)); r.Some? && Kept(db0, r.value, {}, workers, logs)
  {
    if workers != {} {
      hide Kept, Execute;
      var p := FirstSteps(workers);
      StartsKept(db0, workers, logs);
      ClearWorkers(db0, db0, {}, workers, logs, StationsAssignedWorker);
      var db1 := Execute(db0, p[0]).value;
      ClearWorkers(db0, db1, {}, workers, logs, DevicesAssignedWorker);
      var db2 := Execute(db1, p[1]).value;
      assert RunAll(db2, p[1..][1..]) == Some(db2);
      assert RunAll(db1, p[1..]) == Some(db2);
    } else {
      StartsKept(db0, workers, logs);
    }
  }

  lemma StartsKept(db0: Db, workers: set<Id>, logs: set<Id>)
    requires Integrity(db0)
    ensures Kept(db0, db0, {}, workers, logs)
  {
    hide Integrity, Child, Parent;
  }

  lemma EmptiesAt(plan: seq<Statement>, i: nat)
    requires i < |plan| && plan[i].DeleteAll?
    ensures plan[i].table in Emptied(plan)
  {
    if i > 0 {
      EmptiesAt(plan[1..], i - 1);
    }
  }

  /** The tables the plan empties by name. */
  predicate Named(t: Table) {
    match t
    case ShippingVerifications | OutboundShipments | ArticleUnits | OperationalContainers | OperationCorrections |
      OperationalExceptions | CartonPlacements | PutawaySessions | WarehouseCartons | WarehouseShipments |
      ReceivingSessions | WorkerTaskAssignments | ExpectedArrivalItems | ExpectedArrivals | PhysicalItems |
      OrderItems | WarehouseOrders => true
    case _ => false
  }

  function Position(t: Table): nat {
    match t
    case ShippingVerifications => 0
    case OutboundShipments => 1
    case ArticleUnits => 2
    case OperationalContainers => 3
    case OperationCorrections => 4
    case OperationalExceptions => 5
    case CartonPlacements => 6
    case PutawaySessions => 7
    case WarehouseCartons => 9
    case WarehouseShipments => 10
    case ReceivingSessions => 11
    case WorkerTaskAssignments => 12
    case ExpectedArrivalItems => 13
    case ExpectedArrivals => 14
    case PhysicalItems => 15
    case OrderItems => 16
    case _ => 17
  }

  lemma NamedAt(t: Table)
    requires Named(t)
    ensures Position(t) < |EmptyingSteps()| && EmptyingSteps()[Position(t)] == DeleteAll(t)
  {
  }

  ghost predicate NamedDone(done: set<Table>) {
    forall t :: Named(t) ==> t in done
  }

  lemma NamedAreEmptied()
    ensures NamedDone(Emptied(EmptyingSteps()))
  {
    hide Named, Position, EmptyingSteps;
    forall t | Named(t) ensures t in Emptied(EmptyingSteps()) {
      NamedAt(t);
      EmptiesAt(EmptyingSteps(), Position(t));
    }
  }

  ghost predicate AllDone(done: set<Table>) {
    forall t :: Operational(t) ==> t in done
  }

  lemma ReceivingChildren()
    ensures CascadeChild(ReceivingCartonsReceivingSession) == ReceivingCartons
    ensures CascadeChild(ReceivingScanEventsSession) == ReceivingScanEvents
    ensures CascadeChild(ReceivingProductsReceivingSession) == ReceivingProducts
    ensures CascadeChild(ReceivingDiscrepanciesReceivingSession) == ReceivingDiscrepancies
    ensures CascadeChild(ReceivingWorkerLogsReceivingSession) == ReceivingWorkerLogs
    ensures CascadeChild(ReceivingReportsReceivingSession) == ReceivingReports
    ensures CascadeChild(ReceivingReportLinesReport) == ReceivingReportLines
    ensures CascadeChild(ReceivingReportPhotosReport) == ReceivingReportPhotos
  {
  }

  lemma ReceivingParents(k: CascadeKey)
    ensures k.ReceivingReportLinesReport? || k.ReceivingReportPhotosReport? ==> CascadeParent(k) == ReceivingReports
    ensures k.ReceivingCartonsReceivingSession? || k.ReceivingScanEventsSession? ||
            k.ReceivingProductsReceivingSession? || k.ReceivingDiscrepanciesReceivingSession? ||
            k.ReceivingWorkerLogsReceivingSession? || k.ReceivingReportsReceivingSession? ==>
              CascadeParent(k) == ReceivingSessions
  {
  }

  function SessionKeys(): seq<CascadeKey> {
    [ReceivingCartonsReceivingSession, ReceivingScanEventsSession, ReceivingProductsReceivingSession,
     ReceivingDiscrepanciesReceivingSession, ReceivingWorkerLogsReceivingSession, ReceivingReportsReceivingSession,
     ReceivingReportLinesReport, ReceivingReportPhotosReport]
  }

  function Children(keys: seq<CascadeKey>): set<Table> {
    if keys == [] then {} else {CascadeChild(keys[0])} + Children(keys[1..])
  }

  /** Every key of the list leads from a table that is empty by then. */
  ghost predicate Following(keys: seq<CascadeKey>, done: set<Table>) {
    keys == [] || (CascadeParent(keys[0]) in done && Following(keys[1..], done + {CascadeChild(keys[0])}))
  }

  lemma {:induction false} FollowAll(db0: Db, db: Db, done: set<Table>, workers: set<Id>, logs: set<Id>, keys: seq<CascadeKey>)
    requires Kept(db0, db, done, workers, logs) && Following(keys, done)
    ensures Kept(db0, db, done + Children(keys), workers, logs)
    decreases |keys|
  {
    hide Kept, CascadeChild, CascadeParent;
    if keys == [] {
      assert done + Children(keys) == done;
    } else {
      FollowStep(db0, db, done, workers, logs, keys[0]);
      FollowAll(db0, db, done + {CascadeChild(keys[0])}, workers, logs, keys[1..]);
      assert done + {CascadeChild(keys[0])} + Children(keys[1..]) == done + Children(keys);
    }
  }

  lemma SessionKeyAt(i: nat)
    requires i < |SessionKeys()|
    ensures CascadeParent(SessionKeys()[i]) == if i <= 5 then ReceivingSessions else ReceivingReports
    ensures i == 5 ==> CascadeChild(SessionKeys()[i]) == ReceivingReports
  {
    hide CascadeChild, CascadeParent;
    ReceivingParents(SessionKeys()[i]);
    ReceivingChildren();
  }

  lemma {:induction false} FollowingFrom(i: nat, done: set<Table>)
    requires i <= |SessionKeys()| && ReceivingSessions in done && (i > 5 ==> ReceivingReports in done)
    ensures Following(SessionKeys()[i..], done)
    decreases |SessionKeys()| - i
  {
    hide CascadeChild, CascadeParent, SessionKeys;
    var keys := SessionKeys();
    if i < |keys| {
      SessionKeyAt(i);
      assert keys[i..][1..] == keys[i + 1..];
      FollowingFrom(i + 1, done + {CascadeChild(keys[i])});
    }
  }

  lemma ChildAt(keys: seq<CascadeKey>, i: nat)
    requires i < |keys|
    ensures CascadeChild(keys[i]) in Children(keys)
  {
    hide CascadeChild;
    if i > 0 {
      ChildAt(keys[1..], i - 1);
    }
  }

  /** The children of receiving sessions went with them. */
  lemma AllAreDone(done: set<Table>)
    requires NamedDone(done)
    ensures AllDone(done + Children(SessionKeys()))
  {
    hide Operational, Named, CascadeChild;
    ReceivingChildren();
    var keys := SessionKeys();
    forall i | 0 <= i < |keys| ensures CascadeChild(keys[i]) in Children(keys) {
      ChildAt(keys, i);
    }
    assert forall i :: 0 <= i < 8 ==> CascadeChild(keys[i]) in Children(keys);
    hide Children;
    forall t | Operational(t) ensures t in done + Children(keys) {
      NamedOrReceiving(t);
      assert CascadeChild(keys[0]) in Children(keys) && CascadeChild(keys[1]) in Children(keys)
          && CascadeChild(keys[2]) in Children(keys) && CascadeChild(keys[3]) in Children(keys)
          && CascadeChild(keys[4]) in Children(keys) && CascadeChild(keys[5]) in Children(keys)
          && CascadeChild(keys[6]) in Children(keys) && CascadeChild(keys[7]) in Children(keys);
    }
  }

  lemma ReceivingFollows(db0: Db, db: Db, done: set<Table>, workers: set<Id>, logs: set<Id>) returns (all: set<Table>)
    requires Kept(db0, db, done, workers, logs) && NamedDone(done)
    ensures Kept(db0, db, all, workers, logs) && AllDone(all)
  {
    assert ReceivingSessions in done by { assert Named(ReceivingSessions); }
    hide Kept, AllDone, NamedDone, Following, Children;
    FollowingFrom(0, done);
    assert SessionKeys()[0..] == SessionKeys();
    FollowAll(db0, db, done, workers, logs, SessionKeys());
    AllAreDone(done);
    all := done + Children(SessionKeys());
  }

  lemma NamedOrReceiving(t: Table)
    requires Operational(t)
    ensures Named(t) || t.ReceivingCartons? || t.ReceivingScanEvents? || t.ReceivingProducts? ||
            t.ReceivingDiscrepancies? || t.ReceivingWorkerLogs? || t.ReceivingReports? ||
            t.ReceivingReportLines? || t.ReceivingReportPhotos?
  {
  }

  lemma EmptyingIsSafe()
    ensures Safe(EmptyingSteps(), {})
  {
    hide EmptyingSteps, Ordered, Safe;
    var p := EmptyingSteps();
    forall j | 0 <= j < |p| ensures Ordered(p, j) {
      EmptyingIsOrdered(j);
    }
    OrderedIsSafe(p, 0, {});
    assert p[0..] == p;
  }

  lemma EmptyingRuns(db0: Db, db: Db, workers: set<Id>, logs: set<Id>) returns (all: set<Table>)
    requires Kept(db0, db, {}, workers, logs)
    ensures var r := RunAll(db, EmptyingSteps()); r.Some? && Kept(db0, r.value, all, workers, logs)
    ensures AllDone(all)
  {
    hide Kept, EmptyingSteps, Safe, RunAll, Emptied, NamedDone, AllDone;
    var p := EmptyingSteps();
    EmptyingIsSafe();
    SafeRuns(db0, db, {}, workers, logs, p);
    NamedAreEmptied();
    assert {} + Emptied(p) == Emptied(p);
    all := ReceivingFollows(db0, RunAll(db, p).value, Emptied(p), workers, logs);
  }

  /** No worker and no operational log entry is left. */
  ghost predicate Cleared(db: Db, workers: set<Id>, logs: set<Id>) {
    && (forall row :: row in db.rows && row.table == Users ==> row.id !in workers)
    && (forall row :: row in db.rows && row.table == AuditLogs ==> row.id !in logs)
  }

  lemma LastRuns(db0: Db, db: Db, done: set<Table>, workers: set<Id>, logs: set<Id>)
    requires Kept(db0, db, done, workers, logs) && AllDone(done)
    ensures var r := RunAll(db, LastSteps(workers, logs));
            r.Some? && Kept(db0, r.value, done, workers, logs) && Cleared(r.value, workers, logs)
  {
    hide Kept, Execute, Cleared;
    var p := LastSteps(workers, logs);
    assert WorkerTaskAssignments in done && OperationCorrections in done;
    hide AllDone;
    var db3 := db;
    if workers != {} {
      DeleteWorkersStep(db0, db, done, workers, logs, p[0]);
      var db1 := Execute(db, p[0]).value;
      DeleteWorkersStep(db0, db1, done, workers, logs, p[1]);
      var db2 := Execute(db1, p[1]).value;
      DeleteWorkersStep(db0, db2, done, workers, logs, p[2]);
      db3 := Execute(db2, p[2]).value;
      assert RunAll(db2, p[1..][1..]) == RunAll(db3, p[1..][1..][1..]);
      assert RunAll(db1, p[1..]) == RunAll(db2, p[1..][1..]);
      assert p[1..][1..][1..] == [DeleteById(AuditLogs, logs)];
      UsersCleared(db2, workers, db3);
    }
    var q := [DeleteById(AuditLogs, logs)];
    assert workers == {} ==> p == q;
    assert RunAll(db, p) == RunAll(db3, q);
    DeleteLogsStep(db0, db3, done, workers, logs);
    var db4 := Execute(db3, q[0]).value;
    assert RunAll(db4, q[1..]) == Some(db4);
    LogsCleared(db3, workers, logs, db4);
  }

  lemma UsersCleared(db: Db, workers: set<Id>, after: Db)
    requires after.rows <= db.rows && Selected(db, DeleteById(Users, workers)) !! after.rows
    ensures forall row :: row in after.rows && row.table == Users ==> row.id !in workers
  {
    forall row | row in after.rows && row.table == Users ensures row.id !in workers {
      assert row.id in workers ==> row in Selected(db, DeleteById(Users, workers));
    }
  }

  lemma LogsCleared(db: Db, workers: set<Id>, logs: set<Id>, after: Db)
    requires after.rows <= db.rows && Selected(db, DeleteById(AuditLogs, logs)) !! after.rows
    requires forall row :: row in db.rows && row.table == Users ==> row.id !in workers
    ensures Cleared(after, workers, logs)
  {
    forall row | row in after.rows && row.table == AuditLogs ensures row.id !in logs {
      assert row.id in logs ==> row in Selected(db, DeleteById(AuditLogs, logs));
    }
  }

  /** The state the plan is to reach: exactly the rows it does not delete, and between them
      exactly the references whose target is left. */
  ghost predicate Outcome(db0: Db, db: Db, workers: set<Id>, logs: set<Id>) {
    && (forall row :: row in db.rows <==> row in db0.rows && !Losable(db0, row, workers, logs))
    && (forall l: Link :: Source(l) in db.rows ==> (l in db.refs <==> l in db0.refs && Target(db0, l) in db.rows))
    && (forall l: Link :: l in db.refs ==> l in db0.refs && db.refs[l] == db0.refs[l])
  }

  lemma KeptIsOutcome(db0: Db, db: Db, done: set<Table>, workers: set<Id>, logs: set<Id>)
    requires Integrity(db0) && Kept(db0, db, done, workers, logs) && AllDone(done) && Cleared(db, workers, logs)
    ensures Outcome(db0, db, workers, logs)
  {
    hide Child, Parent, Operational, Required, OfWorker;
    forall row | row in db.rows ensures !OfWorker(db0, row, workers) {
      if OfWorker(db0, row, workers) {
        WorkerLeft(db0, db, workers, row);
      }
    }
    forall l: Link | Source(l) in db.rows && l in db0.refs && Target(db0, l) in db.rows ensures l in db.refs {
    }
  }

  /** A row of a worker is left only together with the worker. */
  lemma WorkerLeft(db0: Db, db: Db, workers: set<Id>, row: Row)
    requires Integrity(db) && RefsKept(db0, db, workers) && OfWorker(db0, row, workers) && row in db.rows
    ensures exists u: Row :: u in db.rows && u.table == Users && u.id in workers
  {
    hide Child, Parent, UserKey, Clearable;
    if !(row.table == Users && row.id in workers) {
      var k: CascadeKey :| UserKey(k) && Refers(db0, Cascading(k), row, workers);
      var l := Link(Cascading(k), row.id);
      UserChild(k);
      assert Source(l) == row && l in db.refs;
      assert Target(db, l) in db.rows;
    }
  }

  /** From every database whose references are intact, the plan runs to its end, leaves the
      references intact, and reaches its outcome. */
  lemma ResetIsSafe(db0: Db, workers: set<Id>, logs: set<Id>)
    requires Integrity(db0)
    ensures var r := RunAll(db0, Plan(workers, logs));
            r.Some? && Integrity(r.value) && Outcome(db0, r.value, workers, logs)
  {
    hide FirstSteps, EmptyingSteps, LastSteps, Integrity, Outcome, RunAll;
    FirstRuns(db0, workers, logs);
    var db1 := RunAll(db0, FirstSteps(workers)).value;
    var all := EmptyingRuns(db0, db1, workers, logs);
    var db2 := RunAll(db1, EmptyingSteps()).value;
    LastRuns(db0, db2, all, workers, logs);
    var db3 := RunAll(db2, LastSteps(workers, logs)).value;
    RunBoth(db0, FirstSteps(workers), EmptyingSteps());
    RunBoth(db0, FirstSteps(workers) + EmptyingSteps(), LastSteps(workers, logs));
    KeptIsOutcome(db0, db3, all, workers, logs);
  }
}
