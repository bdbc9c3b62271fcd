/** The tables of the warehouse database and the foreign keys between them, by what happens to
    the row that holds the key when the row it points to is deleted. */
module Schema {
  datatype Table =
    WorkerTaskAssignments | Users | Roles | Permissions | UserRoles | RolePermissions | Sessions | Devices |
    PushTokens | AuditLogs | SystemSettings | ApiClients | Warehouses | Zones | Aisles | Racks | Levels |
    Locations | Products | WarehouseOrders | OrderItems | PhysicalItems | ExpectedArrivals |
    ExpectedArrivalItems | CategoryMaster | CategoryZoneMappings | OperationalContainers | ArticleUnits |
    OutboundShipments | ShippingVerifications | OperationalExceptions | WarehouseShipments | WarehouseCartons |
    ReceivingSessions | ReceivingCartons | ReceivingScanEvents | ReceivingProducts | ReceivingDiscrepancies |
    ReceivingWorkerLogs | ReceivingReports | ReceivingReportLines | ReceivingReportPhotos |
    ProductStationMoves | TemporaryStorageContainers | TemporaryStorageItems | TemporaryStorageReports |
    PutawaySessions | CartonPlacements | Stations | StationDisplays | StationDisplayActions |
    StationPrintJobs | StationDisplayMessages | OperationCorrections | BatchCustomers | AyroviUnits | Batches |
    BatchItems

  /** Keys that forbid the deletion of the row they point to. */
  datatype RestrictKey =
    WorkerTaskAssignmentsWorker | ZonesWarehouse | AislesZone | RacksAisle | LevelsRack | LocationsWarehouse |
    LocationsZone | LocationsAisle | LocationsRack | LocationsLevel | WarehouseOrdersWarehouse |
    OrderItemsOrder | OrderItemsProduct | PhysicalItemsOrderItem | PhysicalItemsCurrentLocation |
    CategoryZoneMappingsZone | OutboundShipmentsOrder | WarehouseCartonsCurrentLocation |
    CartonPlacementsLocation | OperationCorrectionsAdmin | BatchItemsUnit

  /** Keys whose row is deleted with the row it points to. */
  datatype CascadeKey =
    UserRolesUser | UserRolesRole | RolePermissionsRole | RolePermissionsPermission | SessionsUser |
    PushTokensUser | ExpectedArrivalItemsArrival | CategoryZoneMappingsCategory |
    ShippingVerificationsOutboundShipment | WarehouseCartonsShipment | ReceivingSessionsArrival |
    ReceivingCartonsReceivingSession | ReceivingScanEventsSession | ReceivingProductsReceivingSession |
    ReceivingDiscrepanciesReceivingSession | ReceivingWorkerLogsReceivingSession |
    ReceivingReportsReceivingSession | ReceivingReportLinesReport | ReceivingReportPhotosReport |
    CartonPlacementsCarton | StationDisplaysStation | StationDisplayActionsDisplay | StationPrintJobsStation |
    StationDisplayMessagesDisplay | BatchItemsBatch

  /** Keys that become null. */
  datatype SetNullKey =
    WorkerTaskAssignmentsCreatedBy | WorkerTaskAssignmentsCompletedBy | WorkerTaskAssignmentsCancelledBy |
    WorkerTaskAssignmentsArrival | WorkerTaskAssignmentsCarton | WorkerTaskAssignmentsContainer |
    WorkerTaskAssignmentsOutboundShipment | WorkerTaskAssignmentsOrder | WorkerTaskAssignmentsStation |
    SessionsDevice | SessionsStation | DevicesAssignedWorker | AuditLogsActorUser |
    ExpectedArrivalItemsCarton | OperationalContainersOrder | OperationalContainersStagingStation |
    ArticleUnitsArrivalItem | ArticleUnitsReceivingSession | ArticleUnitsSourceCarton | ArticleUnitsContainer |
    ArticleUnitsCurrentLocation | ArticleUnitsOrder | ArticleUnitsOrderItem | ArticleUnitsOutboundShipment |
    OutboundShipmentsContainer | OperationalExceptionsStation | WarehouseShipmentsArrival |
    ReceivingSessionsShipment | ReceivingSessionsStation | ReceivingCartonsCarton |
    ReceivingReportLinesReceivingProduct | ProductStationMovesReceivingProduct |
    ProductStationMovesReportLine | ProductStationMovesFromStation | ProductStationMovesToStation |
    TemporaryStorageItemsContainer | TemporaryStorageItemsProductMove | TemporaryStorageItemsArticleUnit |
    PutawaySessionsWorker | PutawaySessionsStation | CartonPlacementsPutawaySession | StationsAssignedWorker |
    StationsDevice | StationsWarehouse | StationsZone | StationPrintJobsDisplay |
    OperationCorrectionsReceivingSession | OperationCorrectionsStation | OperationCorrectionsWorker |
    BatchesCustomer

  /** A foreign key: the table that holds it and its column. */
  datatype Ref = Restricting(restrict: RestrictKey) | Cascading(cascade: CascadeKey) | Nulling(setNull: SetNullKey)

  function RestrictChild(k: RestrictKey): Table {
    match k
    case WorkerTaskAssignmentsWorker => WorkerTaskAssignments
    case ZonesWarehouse => Zones
    case AislesZone => Aisles
    case RacksAisle => Racks
    case LevelsRack => Levels
    case WarehouseOrdersWarehouse => WarehouseOrders
    case CategoryZoneMappingsZone => CategoryZoneMappings
    case OutboundShipmentsOrder => OutboundShipments
    case WarehouseCartonsCurrentLocation => WarehouseCartons
    case CartonPlacementsLocation => CartonPlacements
    case OperationCorrectionsAdmin => OperationCorrections
    case BatchItemsUnit => BatchItems
    case OrderItemsOrder | OrderItemsProduct => OrderItems
    case PhysicalItemsOrderItem | PhysicalItemsCurrentLocation => PhysicalItems
    case _ => Locations
  }

  function RestrictParent(k: RestrictKey): Table {
    match k
    case LocationsLevel => Levels
    case OrderItemsProduct => Products
    case PhysicalItemsOrderItem => OrderItems
    case BatchItemsUnit => AyroviUnits
    case WorkerTaskAssignmentsWorker | OperationCorrectionsAdmin => Users
    case RacksAisle | LocationsAisle => Aisles
    case LevelsRack | LocationsRack => Racks
    case OrderItemsOrder | OutboundShipmentsOrder => WarehouseOrders
    case ZonesWarehouse | LocationsWarehouse | WarehouseOrdersWarehouse => Warehouses
    case AislesZone | LocationsZone | CategoryZoneMappingsZone => Zones
    case _ => Locations
  }

  function CascadeChild(k: CascadeKey): Table {
    match k
    case SessionsUser => Sessions
    case PushTokensUser => PushTokens
    case ExpectedArrivalItemsArrival => ExpectedArrivalItems
    case CategoryZoneMappingsCategory => CategoryZoneMappings
    case ShippingVerificationsOutboundShipment => ShippingVerifications
    case WarehouseCartonsShipment => WarehouseCartons
    case ReceivingSessionsArrival => ReceivingSessions
    case ReceivingCartonsReceivingSession => ReceivingCartons
    case ReceivingScanEventsSession => ReceivingScanEvents
    case ReceivingProductsReceivingSession => ReceivingProducts
    case ReceivingDiscrepanciesReceivingSession => ReceivingDiscrepancies
    case ReceivingWorkerLogsReceivingSession => ReceivingWorkerLogs
    case ReceivingReportsReceivingSession => ReceivingReports
    case ReceivingReportLinesReport => ReceivingReportLines
    case ReceivingReportPhotosReport => ReceivingReportPhotos
    case CartonPlacementsCarton => CartonPlacements
    case StationDisplaysStation => StationDisplays
    case StationDisplayActionsDisplay => StationDisplayActions
    case StationPrintJobsStation => StationPrintJobs
    case StationDisplayMessagesDisplay => StationDisplayMessages
    case BatchItemsBatch => BatchItems
    case UserRolesUser | UserRolesRole => UserRoles
    case _ => RolePermissions
  }

  function CascadeParent(k: CascadeKey): Table {
    match k
    case RolePermissionsPermission => Permissions
    case CategoryZoneMappingsCategory => CategoryMaster
    case ShippingVerificationsOutboundShipment => OutboundShipments
    case WarehouseCartonsShipment => WarehouseShipments
    case CartonPlacementsCarton => WarehouseCartons
    case BatchItemsBatch => Batches
    case UserRolesRole | RolePermissionsRole => Roles
    case ExpectedArrivalItemsArrival | ReceivingSessionsArrival => ExpectedArrivals
    case ReceivingReportLinesReport | ReceivingReportPhotosReport => ReceivingReports
    case StationDisplaysStation | StationPrintJobsStation => Stations
    case StationDisplayActionsDisplay | StationDisplayMessagesDisplay => StationDisplays
    case UserRolesUser | SessionsUser | PushTokensUser => Users
    case _ => ReceivingSessions
  }

  function SetNullChild(k: SetNullKey): Table {
    match k
    case DevicesAssignedWorker => Devices
    case AuditLogsActorUser => AuditLogs
    case ExpectedArrivalItemsCarton => ExpectedArrivalItems
    case OutboundShipmentsContainer => OutboundShipments
    case OperationalExceptionsStation => OperationalExceptions
    case WarehouseShipmentsArrival => WarehouseShipments
    case ReceivingCartonsCarton => ReceivingCartons
    case ReceivingReportLinesReceivingProduct => ReceivingReportLines
    case CartonPlacementsPutawaySession => CartonPlacements
    case StationPrintJobsDisplay => StationPrintJobs
    case BatchesCustomer => Batches
    case SessionsDevice | SessionsStation => Sessions
    case OperationalContainersOrder | OperationalContainersStagingStation => OperationalContainers
    case ReceivingSessionsShipment | ReceivingSessionsStation => ReceivingSessions
    case PutawaySessionsWorker | PutawaySessionsStation => PutawaySessions
    case TemporaryStorageItemsContainer | TemporaryStorageItemsProductMove | TemporaryStorageItemsArticleUnit => TemporaryStorageItems
    case OperationCorrectionsReceivingSession | OperationCorrectionsStation | OperationCorrectionsWorker => OperationCorrections
    case ProductStationMovesReceivingProduct | ProductStationMovesReportLine | ProductStationMovesFromStation |
      ProductStationMovesToStation => ProductStationMoves
    case StationsAssignedWorker | StationsDevice | StationsWarehouse | StationsZone => Stations
    case ArticleUnitsArrivalItem | ArticleUnitsReceivingSession | ArticleUnitsSourceCarton |
      ArticleUnitsContainer | ArticleUnitsCurrentLocation | ArticleUnitsOrder | ArticleUnitsOrderItem |
      ArticleUnitsOutboundShipment => ArticleUnits
    case _ => WorkerTaskAssignments
  }

  function SetNullParent(k: SetNullKey): Table {
    match k
    case ArticleUnitsArrivalItem => ExpectedArrivalItems
    case ArticleUnitsCurrentLocation => Locations
    case ArticleUnitsOrderItem => OrderItems
    case ReceivingSessionsShipment => WarehouseShipments
    case ProductStationMovesReportLine => ReceivingReportLines
    case TemporaryStorageItemsContainer => TemporaryStorageContainers
    case TemporaryStorageItemsProductMove => ProductStationMoves
    case TemporaryStorageItemsArticleUnit => ArticleUnits
    case CartonPlacementsPutawaySession => PutawaySessions
    case StationsWarehouse => Warehouses
    case StationsZone => Zones
    case StationPrintJobsDisplay => StationDisplays
    case BatchesCustomer => BatchCustomers
    case WorkerTaskAssignmentsArrival | WarehouseShipmentsArrival => ExpectedArrivals
    case WorkerTaskAssignmentsOutboundShipment | ArticleUnitsOutboundShipment => OutboundShipments
    case SessionsDevice | StationsDevice => Devices
    case ArticleUnitsReceivingSession | OperationCorrectionsReceivingSession => ReceivingSessions
    case ReceivingReportLinesReceivingProduct | ProductStationMovesReceivingProduct => ReceivingProducts
    case WorkerTaskAssignmentsContainer | ArticleUnitsContainer | OutboundShipmentsContainer => OperationalContainers
    case WorkerTaskAssignmentsOrder | OperationalContainersOrder | ArticleUnitsOrder => WarehouseOrders
    case WorkerTaskAssignmentsCarton | ExpectedArrivalItemsCarton | ArticleUnitsSourceCarton |
      ReceivingCartonsCarton => WarehouseCartons
    case WorkerTaskAssignmentsCreatedBy | WorkerTaskAssignmentsCompletedBy | WorkerTaskAssignmentsCancelledBy |
      DevicesAssignedWorker | AuditLogsActorUser | PutawaySessionsWorker | StationsAssignedWorker |
      OperationCorrectionsWorker => Users
    case _ => Stations
  }

  /** The table that holds the key. */
  function Child(r: Ref): Table {
    match r
    case Restricting(k) => RestrictChild(k)
    case Cascading(k) => CascadeChild(k)
    case Nulling(k) => SetNullChild(k)
  }

  /** The table it points into. */
  function Parent(r: Ref): Table {
    match r
    case Restricting(k) => RestrictParent(k)
    case Cascading(k) => CascadeParent(k)
    case Nulling(k) => SetNullParent(k)
  }

  /** Keys that cannot be null. */
  predicate Required(r: Ref) {
    match r
    case Restricting(k) => k !in {WarehouseOrdersWarehouse, PhysicalItemsCurrentLocation, WarehouseCartonsCurrentLocation}
    case Cascading(_) => true
    case Nulling(_) => false
  }
}
