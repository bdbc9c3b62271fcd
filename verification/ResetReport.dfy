/** What the clean-up announces table by table in its report, and what becomes of every table. */
module ResetReport {
  import opened ReferentialDb
  import opened ResetPlan
  import opened ResetResult
  import opened Schema

  datatype Fate = Emptied | Kept | OfWorkers | SomeLogs

  /** What the report announces: everything is deleted, nothing is, or what belongs to the workers
      or to the test. */
  predicate AnnouncedEmpty(t: Table) {
    match t
    case WarehouseOrders | OrderItems | PhysicalItems | ExpectedArrivals | ExpectedArrivalItems | WarehouseShipments |
      WarehouseCartons | ReceivingSessions | ReceivingCartons | ReceivingScanEvents | ReceivingProducts |
      ReceivingDiscrepancies | ArticleUnits | OperationalContainers | OutboundShipments | ShippingVerifications |
      WorkerTaskAssignments | OperationalExceptions | OperationCorrections | CartonPlacements | PutawaySessions => true
    case _ => false
  }

  predicate AnnouncedKept(t: Table) {
    match t
    case Devices | Stations | Roles | Permissions | Warehouses | Zones | Aisles | Racks | Levels | Locations |
      CategoryMaster | CategoryZoneMappings | Products | SystemSettings => true
    case _ => false
  }

  /** What becomes of each of the tables.  Four of those that the report does not list are emptied
      with the receiving sessions. */
  function FateOf(t: Table): Fate {
    match t
    case Users | UserRoles | Sessions | PushTokens => OfWorkers
    case AuditLogs => SomeLogs
    case ReceivingWorkerLogs | ReceivingReports | ReceivingReportLines | ReceivingReportPhotos => Emptied
    case RolePermissions | ApiClients | ProductStationMoves | TemporaryStorageContainers | TemporaryStorageItems |
      TemporaryStorageReports | StationDisplays | StationDisplayActions | StationPrintJobs | StationDisplayMessages |
      BatchCustomers | AyroviUnits | Batches | BatchItems => Kept
    case _ => if AnnouncedEmpty(t) then Emptied else Kept
  }

  /** The tables that are emptied without being announced. */
  predicate Unannounced(t: Table) {
    t.ReceivingWorkerLogs? || t.ReceivingReports? || t.ReceivingReportLines? || t.ReceivingReportPhotos?
  }

  lemma OperationalAre(t: Table)
    ensures Operational(t) <==> AnnouncedEmpty(t) || Unannounced(t)
  {
  }

  lemma FatesEmptied(t: Table)
    ensures FateOf(t).Emptied? <==> AnnouncedEmpty(t) || Unannounced(t)
  {
  }

  lemma FateEmptied(t: Table)
    ensures FateOf(t).Emptied? <==> Operational(t)
  {
    hide FateOf, Operational, AnnouncedEmpty;
    OperationalAre(t);
    FatesEmptied(t);
  }

  lemma FateAnnounced(t: Table)
    ensures AnnouncedEmpty(t) ==> FateOf(t).Emptied?
    ensures AnnouncedKept(t) ==> FateOf(t).Kept?
  {
  }

  lemma FateOther(t: Table)
    ensures FateOf(t).SomeLogs? <==> t.AuditLogs?
    ensures FateOf(t).OfWorkers? <==> t.Users? || t.UserRoles? || t.Sessions? || t.PushTokens?
  {
    hide AnnouncedEmpty;
  }

  lemma UserKeysOf(k: CascadeKey)
    requires UserKey(k)
    ensures var t := Child(Cascading(k)); t.UserRoles? || t.Sessions? || t.PushTokens?
  {
  }

  /** From every intact database: tables of the first fate are empty afterwards, those of the second
      keep every row, and of the logs those selected go. */
  lemma TablesAfter(db: Db, names: RoleNames, logs: set<Id>, row: Row)
    requires Integrity(db)
    ensures var r := AfterReset(db, names, logs);
            && (FateOf(row.table).Emptied? ==> row !in r.rows)
            && (FateOf(row.table).Kept? ==> (row in r.rows <==> row in db.rows))
            && (FateOf(row.table).SomeLogs? ==> (row in r.rows <==> row in db.rows && row.id !in logs))
  {
    FateEmptied(row.table);
    FateOther(row.table);
    hide Integrity, HasRole, RunAll, Plan, Child, Operational, UserKey, FateOf;
    var workers := TestWorkers(db, names);
    if OfWorker(db, row, workers) && row.table != Users {
      var k: CascadeKey :| UserKey(k) && Refers(db, Cascading(k), row, workers);
      UserKeysOf(k);
    }
  }

  /** So the report keeps what it announces. */
  lemma ReportHolds(db: Db, names: RoleNames, logs: set<Id>, row: Row)
    requires Integrity(db)
    ensures AnnouncedEmpty(row.table) ==> row !in AfterReset(db, names, logs).rows
    ensures AnnouncedKept(row.table) ==> (row in AfterReset(db, names, logs).rows <==> row in db.rows)
  {
    hide Integrity;
    FateAnnounced(row.table);
    TablesAfter(db, names, logs, row);
  }

  /** And of roles, sessions and push tokens those go that belong to a user deleted. */
  lemma WorkersRowsGo(db: Db, names: RoleNames, logs: set<Id>, row: Row, k: CascadeKey)
    requires Integrity(db) && row in db.rows
    requires (k.UserRolesUser? && row.table == UserRoles) || (k.SessionsUser? && row.table == Sessions)
             || (k.PushTokensUser? && row.table == PushTokens)
    ensures Link(Cascading(k), row.id) in db.refs
    ensures row in AfterReset(db, names, logs).rows <==> db.refs[Link(Cascading(k), row.id)] !in TestWorkers(db, names)
  {
    var l := Link(Cascading(k), row.id);
    assert Source(l) == row && Required(l.ref);
    OneUserKey(row.table, k);
    hide Integrity, HasRole, RunAll, Plan, Operational, FateOf, Child, UserKey;
    var workers := TestWorkers(db, names);
    assert OfWorker(db, row, workers) <==> Refers(db, Cascading(k), row, workers);
  }

  lemma OneUserKey(t: Table, k: CascadeKey)
    requires (k.UserRolesUser? && t == UserRoles) || (k.SessionsUser? && t == Sessions) || (k.PushTokensUser? && t == PushTokens)
    ensures UserKey(k) && Child(Cascading(k)) == t && !Operational(t) && t != Users && t != AuditLogs
    ensures forall j: CascadeKey :: UserKey(j) && Child(Cascading(j)) == t ==> j == k
  {
  }
}
