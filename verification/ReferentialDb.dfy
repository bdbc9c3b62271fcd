/** A database under foreign keys: what a deletion does, and that it leaves no dangling
    reference. */
module ReferentialDb {
  import opened Schema

  type Id = string

  /** A row is known by its table and id, a reference by the foreign key and the id of its row. */
  datatype Row = Row(table: Table, id: Id)

  datatype Link = Link(ref: Ref, id: Id)

  /** The rows, and where their references point; a reference without an entry is null. */
  datatype Db = Db(rows: set<Row>, refs: map<Link, Id>)

  function Source(l: Link): Row {
    Row(Child(l.ref), l.id)
  }

  function Target(db: Db, l: Link): Row
    requires l in db.refs
  {
    Row(Parent(l.ref), db.refs[l])
  }

  /** How far a table is from the ones nothing cascades into. */
  function Depth(t: Table): nat {
    match t
    case UserRoles | RolePermissions | Sessions | PushTokens | ExpectedArrivalItems | CategoryZoneMappings
      | ShippingVerifications | WarehouseCartons | ReceivingSessions | StationDisplays | StationPrintJobs | BatchItems => 1
    case ReceivingCartons | ReceivingScanEvents | ReceivingProducts | ReceivingDiscrepancies | ReceivingWorkerLogs
      | ReceivingReports | CartonPlacements | StationDisplayActions | StationDisplayMessages => 2
    case ReceivingReportLines | ReceivingReportPhotos => 3
    case _ => 0
  }

  lemma CascadesDown1(k: CascadeKey)
    requires k.UserRolesUser? || k.UserRolesRole? || k.RolePermissionsRole? || k.RolePermissionsPermission? ||
             k.SessionsUser? || k.PushTokensUser? || k.ExpectedArrivalItemsArrival? ||
             k.CategoryZoneMappingsCategory? || k.ShippingVerificationsOutboundShipment?
    ensures Depth(CascadeParent(k)) < Depth(CascadeChild(k))
  {
  }

  lemma CascadesDown2(k: CascadeKey)
    requires k.WarehouseCartonsShipment? || k.ReceivingSessionsArrival? ||
             k.ReceivingCartonsReceivingSession? || k.ReceivingScanEventsSession? ||
             k.ReceivingProductsReceivingSession? || k.ReceivingDiscrepanciesReceivingSession? ||
             k.ReceivingWorkerLogsReceivingSession? || k.ReceivingReportsReceivingSession? ||
             k.ReceivingReportLinesReport?
    ensures Depth(CascadeParent(k)) < Depth(CascadeChild(k))
  {
  }

  lemma CascadesDown3(k: CascadeKey)
    requires k.ReceivingReportPhotosReport? || k.CartonPlacementsCarton? || k.StationDisplaysStation? ||
             k.StationDisplayActionsDisplay? || k.StationPrintJobsStation? ||
             k.StationDisplayMessagesDisplay? || k.BatchItemsBatch?
    ensures Depth(CascadeParent(k)) < Depth(CascadeChild(k))
  {
  }

  /** Deletions cascade only downwards. */
  lemma CascadesDown(k: CascadeKey)
    ensures Depth(CascadeParent(k)) < Depth(CascadeChild(k))
  {
    hide Depth, CascadeParent, CascadeChild;
    match k
    case UserRolesUser | UserRolesRole | RolePermissionsRole | RolePermissionsPermission | SessionsUser |
      PushTokensUser | ExpectedArrivalItemsArrival | CategoryZoneMappingsCategory |
      ShippingVerificationsOutboundShipment =>
      CascadesDown1(k);
    case WarehouseCartonsShipment | ReceivingSessionsArrival | ReceivingCartonsReceivingSession |
      ReceivingScanEventsSession | ReceivingProductsReceivingSession | ReceivingDiscrepanciesReceivingSession |
      ReceivingWorkerLogsReceivingSession | ReceivingReportsReceivingSession | ReceivingReportLinesReport =>
      CascadesDown2(k);
    case _ =>
      CascadesDown3(k);
  }

  /** Every reference of a row points to a row, and none is missing that is required. */
  ghost predicate Integrity(db: Db) {
    && (forall l :: l in db.refs && Source(l) in db.rows ==> Target(db, l) in db.rows)
    && (forall l: Link :: Required(l.ref) && Source(l) in db.rows ==> l in db.refs)
  }

  predicate CascadesInto(l: Link, row: Row) {
    l.ref.Cascading? && Source(l) == row && Depth(Parent(l.ref)) < Depth(row.table)
  }

  /** A row goes when the given rows are deleted: as one of them, or because it refers, by a
      reference that cascades, to a row that goes. */
  ghost predicate Doomed(db: Db, gone: set<Row>, row: Row)
    decreases Depth(row.table)
  {
    row in gone || exists l :: l in db.refs && CascadesInto(l, row) && Doomed(db, gone, Target(db, l))
  }

  /** The reference points to a row that goes. */
  ghost predicate Affected(db: Db, gone: set<Row>, l: Link) {
    l in db.refs && Doomed(db, gone, Target(db, l))
  }

  /** No row restricts the deletion. */
  ghost predicate Allowed(db: Db, gone: set<Row>) {
    forall l :: l in db.refs && Source(l) in db.rows && l.ref.Restricting? ==> !Affected(db, gone, l)
  }

  /** The database without the rows that go, references to them set to null where that is the
      action. */
  ghost function Deleted(db: Db, gone: set<Row>): (r: Db)
    ensures forall row :: row in r.rows <==> row in db.rows && !Doomed(db, gone, row)
    ensures forall l :: l in r.refs <==> l in db.refs && !(l.ref.Nulling? && Affected(db, gone, l))
    ensures forall l :: l in r.refs ==> r.refs[l] == db.refs[l]
  {
    Db(set row | row in db.rows && !Doomed(db, gone, row),
       map l | l in db.refs && !(l.ref.Nulling? && Affected(db, gone, l)) :: db.refs[l])
  }

  /** A row that refers by a cascading reference to a row that goes, goes. */
  lemma DoomedBy(db: Db, gone: set<Row>, l: Link)
    requires l in db.refs && l.ref.Cascading? && Doomed(db, gone, Target(db, l))
    ensures Doomed(db, gone, Source(l))
  {
    CascadesDown(l.ref.cascade);
    hide CascadeChild, CascadeParent, Depth, Target;
    assert CascadesInto(l, Source(l));
  }

  /** An allowed deletion leaves no dangling reference. */
  lemma DeletionKeepsIntegrity(db: Db, gone: set<Row>)
    requires Integrity(db) && Allowed(db, gone)
    ensures Integrity(Deleted(db, gone))
  {
    hide Child, Parent, Required, Depth, Doomed, Deleted;
    var db' := Deleted(db, gone);
    forall l | l in db'.refs && Source(l) in db'.rows ensures Target(db', l) in db'.rows {
      if l.ref.Cascading? && Affected(db, gone, l) {
        DoomedBy(db, gone, l);
      }
    }
    forall l: Link | Required(l.ref) && Source(l) in db'.rows ensures l in db'.refs {
      NulledAreOptional(l.ref);
    }
  }

  lemma NulledAreOptional(r: Ref)
    ensures r.Nulling? ==> !Required(r)
  {
  }

  // ---- How far a deletion reaches

  /** Closed under cascades. */
  ghost predicate Closed(reach: set<Table>) {
    forall k: CascadeKey :: CascadeParent(k) in reach ==> CascadeChild(k) in reach
  }

  ghost predicate Within(gone: set<Row>, reach: set<Table>) {
    forall row :: row in gone ==> row.table in reach
  }

  /** A deletion touches only the tables its cascades reach. */
  lemma {:induction false} DoomedInReach(db: Db, gone: set<Row>, reach: set<Table>, row: Row)
    requires Within(gone, reach) && Closed(reach) && Doomed(db, gone, row)
    ensures row.table in reach
    decreases Depth(row.table)
  {
    hide CascadeChild, CascadeParent, RestrictChild, RestrictParent, SetNullChild, SetNullParent, Depth;
    if row !in gone {
      var l :| l in db.refs && CascadesInto(l, row) && Doomed(db, gone, Target(db, l));
      DoomedInReach(db, gone, reach, Target(db, l));
    }
  }

  /** Every restricting reference into the tables reached comes from an empty table. */
  ghost predicate Unhindered(reach: set<Table>, empty: set<Table>) {
    forall k: RestrictKey :: RestrictParent(k) in reach ==> RestrictChild(k) in empty
  }

  ghost predicate AllEmpty(db: Db, empty: set<Table>) {
    forall row :: row in db.rows ==> row.table !in empty
  }

  lemma UnhinderedIsAllowed(db: Db, gone: set<Row>, reach: set<Table>, empty: set<Table>)
    requires Within(gone, reach) && Closed(reach) && Unhindered(reach, empty) && AllEmpty(db, empty)
    ensures Allowed(db, gone)
  {
    hide CascadeChild, CascadeParent, RestrictChild, RestrictParent, SetNullChild, SetNullParent, Doomed, Closed;
    forall l | l in db.refs && Source(l) in db.rows && l.ref.Restricting? ensures !Affected(db, gone, l) {
      if Affected(db, gone, l) {
        DoomedInReach(db, gone, reach, Target(db, l));
      }
    }
  }

  /** Tables out of reach keep their rows; references into tables out of reach stay. */
  lemma DeletionFrame(db: Db, gone: set<Row>, reach: set<Table>)
    requires Within(gone, reach) && Closed(reach)
    ensures forall row: Row :: row.table !in reach ==> (row in Deleted(db, gone).rows <==> row in db.rows)
    ensures forall l: Link :: Parent(l.ref) !in reach ==> (l in Deleted(db, gone).refs <==> l in db.refs)
  {
    hide Child, Parent, Doomed, Deleted, Closed;
    forall row: Row | row.table !in reach ensures !Doomed(db, gone, row) {
      if Doomed(db, gone, row) {
        DoomedInReach(db, gone, reach, row);
      }
    }
  }

  /** Rows of a table nothing cascades into go only when they are named. */
  lemma OnlyNamed(db: Db, gone: set<Row>, row: Row)
    requires Depth(row.table) == 0
    ensures Doomed(db, gone, row) <==> row in gone
  {
    hide Child, Parent;
  }

  /** With its parent table empty, a table whose rows need a parent is empty as well. */
  lemma OrphansGone(db: Db, r: Ref, empty: set<Table>)
    requires Integrity(db) && Required(r) && Parent(r) in empty && AllEmpty(db, empty)
    ensures AllEmpty(db, empty + {Child(r)})
  {
    hide Child, Parent, Required;
    forall row | row in db.rows ensures row.table !in empty + {Child(r)} {
      if row.table == Child(r) {
        HasParent(db, r, row);
      }
    }
  }

  lemma HasParent(db: Db, r: Ref, row: Row)
    requires Integrity(db) && Required(r) && row in db.rows && row.table == Child(r)
    ensures exists p :: p in db.rows && p.table == Parent(r)
  {
    hide Child, Parent, Required;
    assert Source(Link(r, row.id)) == row;
    assert Target(db, Link(r, row.id)) in db.rows;
  }
}
