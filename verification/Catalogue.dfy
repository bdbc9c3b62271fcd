/** The catalogue of permissions and the seeded roles. */
module Catalogue {
  datatype Resource =
    | Warehouses | Zones | Aisles | Racks | Levels | Locations
    | Products | WarehouseOrders | OrderItems | PhysicalItems
    | Inventory | Receiving | ExpectedArrivals | Shipments | Stowing | Picking | Packing | Shipping
    | Batch | Users | Roles | Operations | Stations | Audit | System | ApiClients
    | Warehouse
    | OtherResource(resourceName: string)

  datatype Action =
    | View | Create | Update | Activate | Deactivate | Cancel | Manage | Execute | ResolveDiscrepancy | Correct
    | Accept | Send | Receive | Void
    | OtherAction(actionName: string)

  /** A permission key, "resource.action". */
  datatype Key = Key(resource: Resource, action: Action)

  function Keys(resource: Resource, actions: set<Action>): set<Key> {
    set a | a in actions :: Key(resource, a)
  }

  const STRUCTURE_RESOURCES: set<Resource> := {Warehouses, Zones, Aisles, Racks, Levels, Locations}

  const STRUCTURE_ACTIONS: set<Action> := {View, Create, Update, Activate, Deactivate}

  /** Every action on every resource. */
  function Product(resources: set<Resource>, actions: set<Action>): set<Key> {
    set r, a | r in resources && a in actions :: Key(r, a)
  }

  function IdentityKeys(): set<Key> {
    Keys(Products, {View, Create, Update, Activate, Deactivate})
    + Keys(WarehouseOrders, {View, Create, Update, Cancel})
    + Keys(OrderItems, {View, Create, Update, Cancel})
    + Keys(PhysicalItems, {View, Create, Cancel})
  }

  function FlowKeys(): set<Key> {
    Keys(Inventory, {View, Manage})
    + Keys(Receiving, {View, Execute})
    + {Key(ExpectedArrivals, View), Key(Shipments, View)}
    + Keys(Receiving, {View, Execute, ResolveDiscrepancy})
    + Product({Stowing, Picking, Packing, Shipping}, {View, Execute})
    + Keys(Batch, {View, Create, Execute, Accept, Send, Receive, Void})
  }

  function AdministrationKeys(): set<Key> {
    Product({Users, Roles}, {View, Manage})
    + Keys(Operations, {View, Correct})
    + Keys(Stations, {View, Manage})
    + {Key(Audit, View)}
    + Product({System, ApiClients}, {View, Manage})
  }

  /** The catalogue. */
  function Permissions(): set<Key> {
    Product(STRUCTURE_RESOURCES, STRUCTURE_ACTIONS) + IdentityKeys() + FlowKeys() + AdministrationKeys()
  }

  /** What is catalogued for a resource, of the given actions. */
  function Of(resource: Resource, actions: set<Action>): set<Key> {
    set k | k in Permissions() && k.resource == resource && k.action in actions
  }

  function OfAll(resources: set<Resource>, actions: set<Action>): set<Key> {
    set k | k in Permissions() && k.resource in resources && k.action in actions
  }

  datatype Class = Admin | Operational | Viewer

  datatype Role = Role(name: string, class_: Class, permissions: set<Key>)

  const IDENTITY_RESOURCES: set<Resource> := {Products, WarehouseOrders, OrderItems, PhysicalItems}

  /** What every role below the administrators reads. */
  function CommonView(): set<Key> {
    OfAll(STRUCTURE_RESOURCES, {View}) + Of(Inventory, {View}) + OfAll(IDENTITY_RESOURCES, {View})
  }

  function SuperAdmin(): Role {
    Role("SUPER_ADMIN", Admin, Permissions())
  }

  /** What the administrators write among the orders. */
  function IdentityWriteKeys(): set<Key> {
    Keys(Products, {Create, Update, Activate, Deactivate}) + Keys(WarehouseOrders, {Create, Update, Cancel})
    + Keys(OrderItems, {Create, Update, Cancel}) + Keys(PhysicalItems, {Create, Cancel})
  }

  /** What the manager writes there. */
  function IdentityManagerWriteKeys(): set<Key> {
    Keys(Products, {Update, Activate, Deactivate}) + Keys(WarehouseOrders, {Update, Cancel})
    + Keys(OrderItems, {Update, Cancel}) + Keys(PhysicalItems, {Cancel})
  }

  /** The keys that are listed one by one. */
  function AdministratorKeys(): set<Key> {
    Product({Users, Roles}, {View, Manage}) + {Key(Audit, View)} + Product({System, ApiClients}, {View, Manage})
    + {Key(ExpectedArrivals, View), Key(Shipments, View), Key(Receiving, ResolveDiscrepancy)}
    + Keys(Operations, {View, Correct}) + Keys(Stations, {View, Manage})
  }

  function ManagerKeys(): set<Key> {
    Product({Users, Roles, Audit, System, ApiClients}, {View})
    + {Key(ExpectedArrivals, View), Key(Shipments, View), Key(Receiving, ResolveDiscrepancy)}
    + Keys(Operations, {View, Correct}) + {Key(Stations, View)} + Keys(Batch, {View, Accept, Send, Void})
  }

  function WarehouseAdmin(): Role {
    Role("WAREHOUSE_ADMIN", Admin,
         OfAll(STRUCTURE_RESOURCES, STRUCTURE_ACTIONS) + Of(Inventory, {View, Manage}) + OfAll(IDENTITY_RESOURCES, {View})
         + IdentityWriteKeys() + OfAll({Receiving, Stowing, Picking, Packing, Shipping}, {Manage, Execute})
         + AdministratorKeys())
  }

  function WarehouseManager(): Role {
    Role("WAREHOUSE_MANAGER", Admin,
         OfAll(STRUCTURE_RESOURCES, {View, Update, Activate, Deactivate}) + Of(Inventory, {View, Manage})
         + OfAll(IDENTITY_RESOURCES, {View}) + IdentityManagerWriteKeys()
         + OfAll({Receiving, Stowing, Picking, Packing, Shipping}, {View, Execute}) + ManagerKeys())
  }

  /** A floor role: the common view, its own flows, and single keys. */
  function Floor(name: string, flows: set<Resource>, single: set<Key>): Role {
    Role(name, Operational, CommonView() + OfAll(flows, {View, Execute}) + single)
  }

  function Inbound(): Role {
    Floor("INBOUND_WORKER", {Receiving, Stowing},
          {Key(ExpectedArrivals, View), Key(Shipments, View), Key(Stations, View)})
  }

  function BatchWorker(): Role {
    Floor("BATCH_WORKER", {},
          {Key(ExpectedArrivals, View), Key(Shipments, View)} + Keys(Batch, {View, Create, Execute, Receive}))
  }

  function ReceivingWorker(): Role {
    Floor("RECEIVING_WORKER", {Receiving}, {Key(ExpectedArrivals, View), Key(Shipments, View)})
  }

  function TempStorageWorker(): Role {
    Floor("TEMP_STORAGE_WORKER", {Receiving}, {Key(ExpectedArrivals, View), Key(Shipments, View)})
  }

  function SortingWorker(): Role {
    Floor("SORTING_WORKER", {Stowing, Picking}, {})
  }

  function PutawayWorker(): Role {
    Floor("PUTAWAY_WORKER", {Stowing}, {})
  }

  function PackingWorker(): Role {
    Floor("PACKING_WORKER", {Packing}, {})
  }

  function ShippingWorker(): Role {
    Floor("SHIPPING_WORKER", {Shipping}, {})
  }

  function Picker(): Role {
    Floor("PICKER", {Picking}, {})
  }

  function Packer(): Role {
    Floor("PACKER", {Packing}, {})
  }

  function ViewerRole(): Role {
    Role("VIEWER", Viewer,
         CommonView() + OfAll({Receiving, Stowing, Picking, Packing, Shipping}, {View})
         + Product({Audit, ExpectedArrivals, Shipments}, {View}))
  }

  function FloorRoles(): seq<Role> {
    [Inbound(), BatchWorker(), ReceivingWorker(), TempStorageWorker(), SortingWorker(), PutawayWorker(),
     PackingWorker(), ShippingWorker(), Picker(), Packer()]
  }

  /** The seeded roles. */
  function SeededRoles(): seq<Role> {
    [SuperAdmin(), WarehouseAdmin(), WarehouseManager()] + FloorRoles() + [ViewerRole()]
  }

  // ---- What is catalogued

  datatype Section = Structure | Identity | Flow | Administration | Legacy

  function SectionOf(r: Resource): Section {
    match r
    case Warehouses | Zones | Aisles | Racks | Levels | Locations => Structure
    case Products | WarehouseOrders | OrderItems | PhysicalItems => Identity
    case Inventory | Receiving | ExpectedArrivals | Shipments | Stowing | Picking | Packing | Shipping | Batch => Flow
    case Users | Roles | Operations | Stations | Audit | System | ApiClients => Administration
    case Warehouse => Legacy
    case OtherResource(_) => Legacy
  }

  lemma StructureSection(r: Resource)
    ensures r in STRUCTURE_RESOURCES <==> SectionOf(r) == Structure
  {
  }

  lemma IdentitySection(r: Resource)
    ensures r in IDENTITY_RESOURCES <==> SectionOf(r) == Identity
  {
  }

  lemma IdentityResources(k: Key)
    requires k in IdentityKeys()
    ensures SectionOf(k.resource) == Identity
  {
  }

  lemma FlowResources(k: Key)
    requires k in FlowKeys()
    ensures SectionOf(k.resource) == Flow
  {
  }

  lemma AdministrationResources(k: Key)
    requires k in AdministrationKeys()
    ensures SectionOf(k.resource) == Administration
  {
  }

  /** Of the physical structure exactly the five actions are catalogued. */
  lemma StructurePermissions(k: Key)
    requires k.resource in STRUCTURE_RESOURCES
    ensures k in Permissions() <==> k.action in STRUCTURE_ACTIONS
  {
    hide IdentityKeys, FlowKeys, AdministrationKeys;
    if k in IdentityKeys() { IdentityResources(k); }
    if k in FlowKeys() { FlowResources(k); }
    if k in AdministrationKeys() { AdministrationResources(k); }
  }

  /** The coarse key of the warehouse is not catalogued. */
  lemma WarehouseIsLegacy(k: Key)
    requires k.resource == Warehouse
    ensures k !in Permissions()
  {
    hide IdentityKeys, FlowKeys, AdministrationKeys;
    if k in IdentityKeys() { IdentityResources(k); }
    if k in FlowKeys() { FlowResources(k); }
    if k in AdministrationKeys() { AdministrationResources(k); }
  }

  // ---- What the roles may do

  lemma FloorHolds(name: string, flows: set<Resource>, single: set<Key>, k: Key)
    requires k in Floor(name, flows, single).permissions && k !in single
    requires forall r :: r in flows ==> SectionOf(r) == Flow
    ensures SectionOf(k.resource) != Administration
  {
    StructureSection(k.resource);
    IdentitySection(k.resource);
    hide Permissions;
    assert SectionOf(Inventory) == Flow;
  }

  predicate NoAdministration(keys: set<Key>) {
    forall k :: k in keys ==> SectionOf(k.resource) != Administration
  }

  lemma FloorClean(name: string, flows: set<Resource>, single: set<Key>)
    requires NoAdministration(single) && forall r :: r in flows ==> SectionOf(r) == Flow
    ensures NoAdministration(Floor(name, flows, single).permissions)
  {
    hide Floor;
    forall k | k in Floor(name, flows, single).permissions && k !in single ensures SectionOf(k.resource) != Administration {
      FloorHolds(name, flows, single, k);
    }
  }

  lemma InboundClean()
    ensures NoAdministration(Inbound().permissions - {Key(Stations, View)})
  {
    hide Floor;
    var single := {Key(ExpectedArrivals, View), Key(Shipments, View), Key(Stations, View)};
    forall k | k in Inbound().permissions && k != Key(Stations, View) ensures SectionOf(k.resource) != Administration {
      if k !in single {
        FloorHolds("INBOUND_WORKER", {Receiving, Stowing}, single, k);
      }
    }
  }

  lemma ShipmentsClean()
    ensures NoAdministration({Key(ExpectedArrivals, View), Key(Shipments, View)})
    ensures NoAdministration({Key(ExpectedArrivals, View), Key(Shipments, View)} + Keys(Batch, {View, Create, Execute, Receive}))
    ensures NoAdministration({})
  {
  }

  /** No floor role holds a key of the control centre or of the administration, but the inbound
      role, the first, its view of the stations. */
  lemma FloorIsNoAdministration(i: nat)
    requires i < |FloorRoles()|
    ensures NoAdministration(FloorRoles()[i].permissions - (if i == 0 then {Key(Stations, View)} else {}))
  {
    ShipmentsClean();
    InboundClean();
    hide Floor, Keys, NoAdministration;
    var shipments := {Key(ExpectedArrivals, View), Key(Shipments, View)};
    FloorClean("BATCH_WORKER", {}, shipments + Keys(Batch, {View, Create, Execute, Receive}));
    FloorClean("RECEIVING_WORKER", {Receiving}, shipments);
    FloorClean("TEMP_STORAGE_WORKER", {Receiving}, shipments);
    FloorClean("SORTING_WORKER", {Stowing, Picking}, {});
    FloorClean("PUTAWAY_WORKER", {Stowing}, {});
    FloorClean("PACKING_WORKER", {Packing}, {});
    FloorClean("SHIPPING_WORKER", {Shipping}, {});
    FloorClean("PICKER", {Picking}, {});
    FloorClean("PACKER", {Packing}, {});
    assert forall keys: set<Key> :: keys - {} == keys;
  }

  predicate CreatesNothing(keys: set<Key>) {
    forall k :: k in keys ==> k.action != Create
  }

  lemma PartsCreateNothing(actions: set<Action>)
    requires Create !in actions
    ensures forall resource :: CreatesNothing(Keys(resource, actions)) && CreatesNothing(Of(resource, actions))
    ensures forall resources :: CreatesNothing(OfAll(resources, actions)) && CreatesNothing(Product(resources, actions))
  {
    hide Permissions;
  }

  /** The manager creates nothing. */
  lemma ManagerCreatesNothing(k: Key)
    requires k in WarehouseManager().permissions
    ensures k.action != Create
  {
    hide Permissions, Keys, Of, OfAll, Product, STRUCTURE_RESOURCES, IDENTITY_RESOURCES;
    PartsCreateNothing({View, Update, Activate, Deactivate});
    PartsCreateNothing({View, Manage});
    PartsCreateNothing({View});
    PartsCreateNothing({Update, Activate, Deactivate});
    PartsCreateNothing({Update, Cancel});
    PartsCreateNothing({Cancel});
    PartsCreateNothing({View, Execute});
    PartsCreateNothing({View, Correct});
    PartsCreateNothing({View, Accept, Send, Void});
  }

  /** The viewer only views. */
  lemma ViewerOnlyViews(k: Key)
    requires k in ViewerRole().permissions
    ensures k.action == View
  {
    hide Permissions;
  }

  lemma FlowsTogether()
    ensures OfAll({Receiving, Stowing}, {View, Execute}) == OfAll({Receiving}, {View, Execute}) + OfAll({Stowing}, {View, Execute})
  {
    hide Permissions;
  }

  lemma InboundParts()
    ensures var shipments := {Key(ExpectedArrivals, View), Key(Shipments, View)};
            && Inbound().permissions == CommonView() + OfAll({Receiving, Stowing}, {View, Execute})
                 + {Key(ExpectedArrivals, View), Key(Shipments, View), Key(Stations, View)}
            && ReceivingWorker().permissions == CommonView() + OfAll({Receiving}, {View, Execute}) + shipments
            && PutawayWorker().permissions == CommonView() + OfAll({Stowing}, {View, Execute}) + {}
  {
    hide CommonView, OfAll;
  }

  /** The inbound role is the receiving and the putaway role with a view of the stations; of the
      sorting role it lacks the picking. */
  lemma InboundIsNotSorting()
    ensures Inbound().permissions ==
              ReceivingWorker().permissions + PutawayWorker().permissions + {Key(Stations, View)}
    ensures Key(Picking, Execute) in SortingWorker().permissions && Key(Picking, Execute) !in Inbound().permissions
  {
    PickingIsSorting();
    InboundParts();
    FlowsTogether();
    hide CommonView, OfAll, Inbound, ReceivingWorker, PutawayWorker, SortingWorker;
    SetsTogether(CommonView(), OfAll({Receiving}, {View, Execute}), OfAll({Stowing}, {View, Execute}),
                 Key(ExpectedArrivals, View), Key(Shipments, View), Key(Stations, View));
  }

  lemma SetsTogether(common: set<Key>, b: set<Key>, c: set<Key>, x: Key, y: Key, z: Key)
    ensures common + (b + c) + {x, y, z} == (common + b + {x, y}) + (common + c + {}) + {z}
  {
  }

  lemma PickingIsSorting()
    ensures Key(Picking, Execute) in SortingWorker().permissions && Key(Picking, Execute) !in Inbound().permissions
  {
    PickingIsCatalogued();
    hide Permissions;
    PickingIsNotCommon();
    hide CommonView;
  }

  lemma PickingIsNotCommon()
    ensures Key(Picking, Execute) !in CommonView()
  {
    hide Permissions;
  }

  lemma PickingIsCatalogued()
    ensures Key(Picking, Execute) in Permissions()
  {
    assert Key(Picking, Execute) in Product({Stowing, Picking, Packing, Shipping}, {View, Execute});
    assert Key(Picking, Execute) in FlowKeys();
    hide FlowKeys, IdentityKeys, AdministrationKeys;
  }

  // ---- No role names a key that is not catalogued

  lemma FilteredAreCatalogued(resource: Resource, resources: set<Resource>, actions: set<Action>)
    ensures Of(resource, actions) <= Permissions() && OfAll(resources, actions) <= Permissions()
  {
    hide Permissions;
  }

  lemma SectionsAreCatalogued()
    ensures IdentityKeys() <= Permissions() && FlowKeys() <= Permissions() && AdministrationKeys() <= Permissions()
  {
    hide IdentityKeys, FlowKeys, AdministrationKeys, Product;
  }

  lemma KeysWithin(resource: Resource, part: set<Action>, whole: set<Action>)
    requires part <= whole
    ensures Keys(resource, part) <= Keys(resource, whole)
  {
  }

  lemma ProductWithin(resources: set<Resource>, wider: set<Resource>, part: set<Action>, whole: set<Action>)
    requires resources <= wider && part <= whole
    ensures Product(resources, part) <= Product(wider, whole)
  {
  }

  lemma IdentityParts()
    ensures Keys(Products, {Create, Update, Activate, Deactivate}) <= IdentityKeys()
    ensures Keys(Products, {Update, Activate, Deactivate}) <= IdentityKeys()
    ensures Keys(WarehouseOrders, {Create, Update, Cancel}) <= IdentityKeys()
    ensures Keys(WarehouseOrders, {Update, Cancel}) <= IdentityKeys()
    ensures Keys(OrderItems, {Create, Update, Cancel}) <= IdentityKeys()
    ensures Keys(OrderItems, {Update, Cancel}) <= IdentityKeys()
    ensures Keys(PhysicalItems, {Create, Cancel}) <= IdentityKeys()
    ensures Keys(PhysicalItems, {Cancel}) <= IdentityKeys()
  {
    hide Keys;
    KeysWithin(Products, {Create, Update, Activate, Deactivate}, {View, Create, Update, Activate, Deactivate});
    KeysWithin(Products, {Update, Activate, Deactivate}, {View, Create, Update, Activate, Deactivate});
    KeysWithin(WarehouseOrders, {Create, Update, Cancel}, {View, Create, Update, Cancel});
    KeysWithin(WarehouseOrders, {Update, Cancel}, {View, Create, Update, Cancel});
    KeysWithin(OrderItems, {Create, Update, Cancel}, {View, Create, Update, Cancel});
    KeysWithin(OrderItems, {Update, Cancel}, {View, Create, Update, Cancel});
    KeysWithin(PhysicalItems, {Create, Cancel}, {View, Create, Cancel});
    KeysWithin(PhysicalItems, {Cancel}, {View, Create, Cancel});
  }

  lemma FlowParts()
    ensures {Key(ExpectedArrivals, View), Key(Shipments, View), Key(Receiving, ResolveDiscrepancy)} <= FlowKeys()
    ensures Keys(Batch, {View, Accept, Send, Void}) <= FlowKeys()
    ensures Keys(Batch, {View, Create, Execute, Receive}) <= FlowKeys()
  {
    assert Key(Receiving, ResolveDiscrepancy) in Keys(Receiving, {View, Execute, ResolveDiscrepancy});
    hide Keys;
    KeysWithin(Batch, {View, Accept, Send, Void}, {View, Create, Execute, Accept, Send, Receive, Void});
    KeysWithin(Batch, {View, Create, Execute, Receive}, {View, Create, Execute, Accept, Send, Receive, Void});
  }

  lemma AdministrationParts()
    ensures Product({Users, Roles}, {View, Manage}) <= AdministrationKeys()
    ensures Product({System, ApiClients}, {View, Manage}) <= AdministrationKeys()
    ensures Product({Users, Roles, Audit, System, ApiClients}, {View}) <= AdministrationKeys()
    ensures Keys(Operations, {View, Correct}) <= AdministrationKeys()
    ensures Keys(Stations, {View, Manage}) <= AdministrationKeys()
    ensures {Key(Stations, View), Key(Audit, View)} <= AdministrationKeys()
  {
    assert Key(Stations, View) in Keys(Stations, {View, Manage});
    assert Product({Users, Roles, Audit, System, ApiClients}, {View})
        == Product({Users, Roles}, {View}) + {Key(Audit, View)} + Product({System, ApiClients}, {View});
    hide Keys, Product;
    ProductWithin({Users, Roles}, {Users, Roles}, {View}, {View, Manage});
    ProductWithin({System, ApiClients}, {System, ApiClients}, {View}, {View, Manage});
  }

  lemma CommonIsCatalogued()
    ensures CommonView() <= Permissions()
  {
    hide Permissions;
  }

  lemma FloorIsCatalogued(name: string, flows: set<Resource>, single: set<Key>)
    requires single <= Permissions()
    ensures Floor(name, flows, single).permissions <= Permissions()
  {
    hide Permissions, OfAll, CommonView;
    CommonIsCatalogued();
    FilteredAreCatalogued(Inventory, flows, {View, Execute});
  }

  lemma AdministratorsAreCatalogued()
    ensures WarehouseAdmin().permissions <= Permissions()
    ensures WarehouseManager().permissions <= Permissions()
  {
    hide Permissions, OfAll, Of, Product, Keys, IdentityKeys, FlowKeys, AdministrationKeys;
    SectionsAreCatalogued();
    IdentityParts();
    FlowParts();
    AdministrationParts();
    FilteredAreCatalogued(Inventory, STRUCTURE_RESOURCES, STRUCTURE_ACTIONS);
    FilteredAreCatalogued(Inventory, IDENTITY_RESOURCES, {View});
    FilteredAreCatalogued(Inventory, STRUCTURE_RESOURCES, {View, Update, Activate, Deactivate});
    FilteredAreCatalogued(Inventory, {Receiving, Stowing, Picking, Packing, Shipping}, {Manage, Execute});
    FilteredAreCatalogued(Inventory, {Receiving, Stowing, Picking, Packing, Shipping}, {View, Execute});
    FilteredAreCatalogued(Inventory, {}, {View, Manage});
    hide STRUCTURE_RESOURCES, STRUCTURE_ACTIONS, IDENTITY_RESOURCES;
  }

  lemma ViewerSingles()
    ensures Product({Audit, ExpectedArrivals, Shipments}, {View})
         == {Key(Audit, View), Key(ExpectedArrivals, View), Key(Shipments, View)}
  {
  }

  lemma ViewerIsCatalogued()
    ensures ViewerRole().permissions <= Permissions()
  {
    ViewerSingles();
    hide Permissions, OfAll, Product, CommonView, FlowKeys, AdministrationKeys, IdentityKeys;
    SectionsAreCatalogued();
    FlowParts();
    AdministrationParts();
    CommonIsCatalogued();
    FilteredAreCatalogued(Inventory, {Receiving, Stowing, Picking, Packing, Shipping}, {View});
  }

  lemma FloorRolesAreCatalogued(i: nat)
    requires i < |FloorRoles()|
    ensures FloorRoles()[i].permissions <= Permissions()
  {
    hide Permissions, Floor, Keys, FlowKeys, AdministrationKeys, IdentityKeys;
    SectionsAreCatalogued();
    FlowParts();
    AdministrationParts();
    var shipments := {Key(ExpectedArrivals, View), Key(Shipments, View)};
    FloorIsCatalogued("INBOUND_WORKER", {Receiving, Stowing}, {Key(ExpectedArrivals, View), Key(Shipments, View), Key(Stations, View)});
    FloorIsCatalogued("BATCH_WORKER", {}, shipments + Keys(Batch, {View, Create, Execute, Receive}));
    FloorIsCatalogued("RECEIVING_WORKER", {Receiving}, shipments);
    FloorIsCatalogued("TEMP_STORAGE_WORKER", {Receiving}, shipments);
    FloorIsCatalogued("SORTING_WORKER", {Stowing, Picking}, {});
    FloorIsCatalogued("PUTAWAY_WORKER", {Stowing}, {});
    FloorIsCatalogued("PACKING_WORKER", {Packing}, {});
    FloorIsCatalogued("SHIPPING_WORKER", {Shipping}, {});
    FloorIsCatalogued("PICKER", {Picking}, {});
    FloorIsCatalogued("PACKER", {Packing}, {});
  }

  /** Every key a seeded role names is catalogued. */
  lemma RolesAreCatalogued(i: nat)
    requires i < |SeededRoles()|
    ensures SeededRoles()[i].permissions <= Permissions()
  {
    hide Permissions, FloorRoles, WarehouseAdmin, WarehouseManager, ViewerRole;
    assert |FloorRoles()| == 10 by { FloorCount(); }
    AdministratorsAreCatalogued();
    ViewerIsCatalogued();
    if 3 <= i < 13 {
      FloorRolesAreCatalogued(i - 3);
    }
  }

  lemma FloorCount()
    ensures |FloorRoles()| == 10
  {
  }
}
