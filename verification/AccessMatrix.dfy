/** Who may do what, read by the permission instead of by the role: for every key of the
    catalogue the seeded roles that hold it. */
module AccessMatrix {
  import opened Catalogue
  import opened Seeding

  /** The seeded roles, each with its name. */
  datatype Post = SuperAdministrator | Administrator | Manager
                | InboundPost | BatchPost | ReceivingPost | TempStoragePost | SortingPost | PutawayPost
                | PackingPost | ShippingPost | PickerPost | PackerPost | ViewerPost

  function NameOf(p: Post): string {
    match p
    case SuperAdministrator => "SUPER_ADMIN"
    case Administrator => "WAREHOUSE_ADMIN"
    case Manager => "WAREHOUSE_MANAGER"
    case InboundPost => "INBOUND_WORKER"
    case BatchPost => "BATCH_WORKER"
    case ReceivingPost => "RECEIVING_WORKER"
    case TempStoragePost => "TEMP_STORAGE_WORKER"
    case SortingPost => "SORTING_WORKER"
    case PutawayPost => "PUTAWAY_WORKER"
    case PackingPost => "PACKING_WORKER"
    case ShippingPost => "SHIPPING_WORKER"
    case PickerPost => "PICKER"
    case PackerPost => "PACKER"
    case ViewerPost => "VIEWER"
  }

  predicate Administers(p: Post) {
    p.SuperAdministrator? || p.Administrator?
  }

  predicate Supervises(p: Post) {
    Administers(p) || p.Manager?
  }

  predicate IsFlow(r: Resource) {
    r.Receiving? || r.Stowing? || r.Picking? || r.Packing? || r.Shipping?
  }

  /** Whose work on the floor a flow is. */
  predicate WorksOn(p: Post, flow: Resource) {
    match flow
    case Receiving => p.InboundPost? || p.ReceivingPost? || p.TempStoragePost?
    case Stowing => p.InboundPost? || p.SortingPost? || p.PutawayPost?
    case Picking => p.SortingPost? || p.PickerPost?
    case Packing => p.PackingPost? || p.PackerPost?
    case Shipping => p.ShippingPost?
    case _ => false
  }

  /** Who may do what with the structure, the orders and the stock. */
  predicate MayWithGoods(p: Post, k: Key) {
    match k.resource
    case Warehouses | Zones | Aisles | Racks | Levels | Locations | Products =>
      k.action.View? || (k.action.Create? && Administers(p))
      || ((k.action.Update? || k.action.Activate? || k.action.Deactivate?) && Supervises(p))
    case WarehouseOrders | OrderItems =>
      k.action.View? || (k.action.Create? && Administers(p)) || ((k.action.Update? || k.action.Cancel?) && Supervises(p))
    case PhysicalItems =>
      k.action.View? || (k.action.Create? && Administers(p)) || (k.action.Cancel? && Supervises(p))
    case Inventory => k.action.View? || (k.action.Manage? && Supervises(p))
    case _ => false
  }

  /** Who may do what in the flows.  The administrator of the warehouse executes the five flows,
      but does not view them. */
  predicate MayInFlow(p: Post, k: Key) {
    match k.resource
    case Receiving | Stowing | Picking | Packing | Shipping =>
      || (k.action.View? && (p.SuperAdministrator? || p.Manager? || p.ViewerPost? || WorksOn(p, k.resource)))
      || (k.action.Execute? && (Supervises(p) || WorksOn(p, k.resource)))
      || (k.action.ResolveDiscrepancy? && k.resource.Receiving? && Supervises(p))
    case ExpectedArrivals | Shipments =>
      k.action.View? && (Supervises(p) || p.ViewerPost? || p.BatchPost? || WorksOn(p, Receiving))
    case Batch =>
      || (k.action.View? && (p.SuperAdministrator? || p.Manager? || p.BatchPost?))
      || ((k.action.Create? || k.action.Execute? || k.action.Receive?) && (p.SuperAdministrator? || p.BatchPost?))
      || ((k.action.Accept? || k.action.Send? || k.action.Void?) && (p.SuperAdministrator? || p.Manager?))
    case _ => false
  }

  /** Who administers. */
  predicate MayAdminister(p: Post, k: Key) {
    match k.resource
    case Users | Roles | System | ApiClients => (k.action.View? && Supervises(p)) || (k.action.Manage? && Administers(p))
    case Stations => (k.action.View? && (Supervises(p) || p.InboundPost?)) || (k.action.Manage? && Administers(p))
    case Operations => (k.action.View? || k.action.Correct?) && Supervises(p)
    case Audit => k.action.View? && (Supervises(p) || p.ViewerPost?)
    case _ => false
  }

  predicate May(p: Post, k: Key) {
    MayWithGoods(p, k) || MayInFlow(p, k) || MayAdminister(p, k)
  }

  /** Each part has its own resources. */
  lemma Separate(p: Post, k: Key)
    ensures SectionOf(k.resource).Administration? ==> !MayWithGoods(p, k) && !MayInFlow(p, k)
    ensures SectionOf(k.resource).Flow? && !k.resource.Inventory? ==> !MayWithGoods(p, k) && !MayAdminister(p, k)
    ensures SectionOf(k.resource).Legacy? ==> !May(p, k)
  {
  }

  // ---- The catalogue

  lemma StructureKeys(k: Key)
    ensures k in Product(STRUCTURE_RESOURCES, STRUCTURE_ACTIONS)
            <==> SectionOf(k.resource) == Structure && May(SuperAdministrator, k)
  {
    StructureSection(k.resource);
    hide STRUCTURE_RESOURCES;
  }

  lemma IdentityKeysAre(k: Key)
    ensures k in IdentityKeys() <==> SectionOf(k.resource) == Identity && May(SuperAdministrator, k)
  {
  }

  lemma FlowKeysAre(k: Key)
    ensures k in FlowKeys() <==> SectionOf(k.resource) == Flow && May(SuperAdministrator, k)
  {
  }

  lemma AdministrationKeysAre(k: Key)
    ensures k in AdministrationKeys() <==> SectionOf(k.resource) == Administration && May(SuperAdministrator, k)
  {
  }

  /** The catalogue holds what somebody may do. */
  lemma CatalogueIs(k: Key)
    ensures k in Permissions() <==> May(SuperAdministrator, k)
  {
    hide Product, IdentityKeys, FlowKeys, AdministrationKeys, May, SectionOf;
    StructureKeys(k);
    IdentityKeysAre(k);
    FlowKeysAre(k);
    AdministrationKeysAre(k);
    if SectionOf(k.resource) == Legacy {
      Separate(SuperAdministrator, k);
    }
  }

  // ---- The roles

  /** What all read. */
  predicate Common(k: Key) {
    k.action.View? && (SectionOf(k.resource).Structure? || SectionOf(k.resource).Identity? || k.resource.Inventory?)
  }

  lemma CommonIs(k: Key)
    ensures k in CommonView() <==> Common(k)
  {
    hide Permissions;
    CatalogueIs(k);
    StructureSection(k.resource);
    IdentitySection(k.resource);
    hide STRUCTURE_RESOURCES, IDENTITY_RESOURCES;
  }

  lemma FlowKeyIs(flows: set<Resource>, k: Key)
    requires forall r :: r in flows ==> IsFlow(r)
    ensures k in OfAll(flows, {View, Execute}) <==> k.resource in flows && (k.action.View? || k.action.Execute?)
  {
    hide Permissions;
    CatalogueIs(k);
  }

  lemma InboundIs(k: Key)
    ensures k in Inbound().permissions <==> May(InboundPost, k)
  {
    hide Permissions, CommonView, OfAll;
    CommonIs(k);
    FlowKeyIs({Receiving, Stowing}, k);
  }

  lemma BatchIs(k: Key)
    ensures k in BatchWorker().permissions <==> May(BatchPost, k)
  {
    hide Permissions, CommonView, OfAll;
    CommonIs(k);
    FlowKeyIs({}, k);
  }

  lemma ReceivingIs(k: Key)
    ensures k in ReceivingWorker().permissions <==> May(ReceivingPost, k)
    ensures k in TempStorageWorker().permissions <==> May(TempStoragePost, k)
  {
    hide Permissions, CommonView, OfAll;
    CommonIs(k);
    FlowKeyIs({Receiving}, k);
  }

  lemma StowingIs(k: Key)
    ensures k in SortingWorker().permissions <==> May(SortingPost, k)
    ensures k in PutawayWorker().permissions <==> May(PutawayPost, k)
  {
    hide Permissions, CommonView, OfAll;
    CommonIs(k);
    FlowKeyIs({Stowing, Picking}, k);
    FlowKeyIs({Stowing}, k);
  }

  lemma PackingIs(k: Key)
    ensures k in PackingWorker().permissions <==> May(PackingPost, k)
    ensures k in Packer().permissions <==> May(PackerPost, k)
  {
    hide Permissions, CommonView, OfAll;
    CommonIs(k);
    FlowKeyIs({Packing}, k);
  }

  lemma OutboundIs(k: Key)
    ensures k in ShippingWorker().permissions <==> May(ShippingPost, k)
    ensures k in Picker().permissions <==> May(PickerPost, k)
  {
    hide Permissions, CommonView, OfAll;
    CommonIs(k);
    FlowKeyIs({Shipping}, k);
    FlowKeyIs({Picking}, k);
  }

  lemma ViewerIs(k: Key)
    ensures k in ViewerRole().permissions <==> May(ViewerPost, k)
  {
    hide Permissions, CommonView;
    CommonIs(k);
    CatalogueIs(k);
  }

  lemma StructureKeyIs(actions: set<Action>, k: Key)
    ensures k in OfAll(STRUCTURE_RESOURCES, actions)
            <==> SectionOf(k.resource).Structure? && May(SuperAdministrator, k) && k.action in actions
  {
    hide Permissions, May, STRUCTURE_RESOURCES;
    CatalogueIs(k);
    StructureSection(k.resource);
  }

  lemma IdentityViewIs(k: Key)
    ensures k in OfAll(IDENTITY_RESOURCES, {View}) <==> SectionOf(k.resource).Identity? && k.action.View?
  {
    hide Permissions, IDENTITY_RESOURCES;
    CatalogueIs(k);
    IdentitySection(k.resource);
  }

  lemma InventoryIs(k: Key)
    ensures k in Of(Inventory, {View, Manage}) <==> k.resource.Inventory? && (k.action.View? || k.action.Manage?)
  {
    hide Permissions;
    CatalogueIs(k);
  }

  /** None of the five flows has a key to manage it. */
  lemma FlowsAreExecuted(k: Key)
    ensures k in OfAll({Receiving, Stowing, Picking, Packing, Shipping}, {Manage, Execute})
            <==> k.action.Execute? && IsFlow(k.resource)
  {
    hide Permissions;
    CatalogueIs(k);
  }

  lemma KeyIn(r: Resource, actions: set<Action>, k: Key)
    ensures k in Keys(r, actions) <==> k.resource == r && k.action in actions
  {
  }

  lemma ProductIn(resources: set<Resource>, actions: set<Action>, k: Key)
    ensures k in Product(resources, actions) <==> k.resource in resources && k.action in actions
  {
  }

  lemma IdentityWritesAre(k: Key)
    ensures k in IdentityWriteKeys() <==> SectionOf(k.resource).Identity? && !k.action.View? && May(Administrator, k)
    ensures k in IdentityManagerWriteKeys() <==> SectionOf(k.resource).Identity? && !k.action.View? && May(Manager, k)
  {
    hide Keys;
    KeyIn(Products, {Create, Update, Activate, Deactivate}, k);
    KeyIn(WarehouseOrders, {Create, Update, Cancel}, k);
    KeyIn(OrderItems, {Create, Update, Cancel}, k);
    KeyIn(PhysicalItems, {Create, Cancel}, k);
    KeyIn(Products, {Update, Activate, Deactivate}, k);
    KeyIn(WarehouseOrders, {Update, Cancel}, k);
    KeyIn(OrderItems, {Update, Cancel}, k);
    KeyIn(PhysicalItems, {Cancel}, k);
  }

  /** What is listed for the administrator: all but goods and the execution of the flows. */
  lemma AdministratorKeysAre(k: Key)
    ensures k in AdministratorKeys()
            <==> (SectionOf(k.resource).Administration? || SectionOf(k.resource).Flow?)
                 && !k.resource.Inventory? && !k.action.Execute? && May(Administrator, k)
  {
    hide Keys, Product, MayWithGoods;
    ProductIn({Users, Roles}, {View, Manage}, k);
    ProductIn({System, ApiClients}, {View, Manage}, k);
    KeyIn(Operations, {View, Correct}, k);
    KeyIn(Stations, {View, Manage}, k);
    Separate(Administrator, k);
    if SectionOf(k.resource).Administration? {
      hide MayInFlow, IsFlow;
    } else {
      hide MayAdminister, IsFlow;
    }
  }

  /** What is listed for the manager: all but goods, and view and execution of the flows. */
  lemma ManagerKeysAre(k: Key)
    ensures k in ManagerKeys()
            <==> May(Manager, k)
                 && (SectionOf(k.resource).Administration? || k.resource.ExpectedArrivals? || k.resource.Shipments?
                     || k.resource.Batch? || k.action.ResolveDiscrepancy?)
  {
    hide Keys, Product, MayWithGoods;
    ProductIn({Users, Roles, Audit, System, ApiClients}, {View}, k);
    KeyIn(Operations, {View, Correct}, k);
    KeyIn(Batch, {View, Accept, Send, Void}, k);
    Separate(Manager, k);
    ResolvedInFlow(k);
  }

  lemma ResolvedInFlow(k: Key)
    ensures MayWithGoods(Manager, k) ==> !k.action.ResolveDiscrepancy? && !k.resource.Batch?
  {
  }

  lemma ManagerIs(k: Key)
    ensures k in WarehouseManager().permissions <==> May(Manager, k)
  {
    hide Permissions, OfAll, Of, STRUCTURE_RESOURCES, IDENTITY_RESOURCES, IdentityManagerWriteKeys, ManagerKeys;
    StructureKeyIs({View, Update, Activate, Deactivate}, k);
    IdentityViewIs(k);
    InventoryIs(k);
    FlowKeyIs({Receiving, Stowing, Picking, Packing, Shipping}, k);
    IdentityWritesAre(k);
    ManagerKeysAre(k);
  }

  lemma AdministratorIs(k: Key)
    ensures k in WarehouseAdmin().permissions <==> May(Administrator, k)
  {
    hide Permissions, OfAll, Of, STRUCTURE_RESOURCES, IDENTITY_RESOURCES, IdentityWriteKeys, AdministratorKeys;
    StructureKeyIs(STRUCTURE_ACTIONS, k);
    IdentityViewIs(k);
    InventoryIs(k);
    FlowsAreExecuted(k);
    IdentityWritesAre(k);
    AdministratorKeysAre(k);
  }

  // ---- All of them, by name

  function NumberOf(p: Post): nat {
    match p
    case SuperAdministrator => 0
    case Administrator => 1
    case Manager => 2
    case InboundPost => 3
    case BatchPost => 4
    case ReceivingPost => 5
    case TempStoragePost => 6
    case SortingPost => 7
    case PutawayPost => 8
    case PackingPost => 9
    case ShippingPost => 10
    case PickerPost => 11
    case PackerPost => 12
    case ViewerPost => 13
  }

  lemma NameAt(p: Post)
    ensures NumberOf(p) < |Names()| == 14 && Names()[NumberOf(p)] == NameOf(p)
  {
  }

  lemma FloorAt(p: Post, k: Key)
    requires 3 <= NumberOf(p) <= 12
    ensures |FloorRoles()| == 10 && (k in FloorRoles()[NumberOf(p) - 3].permissions <==> May(p, k))
  {
    InboundIs(k);
    BatchIs(k);
    ReceivingIs(k);
    StowingIs(k);
    PackingIs(k);
    OutboundIs(k);
    hide May, Inbound, BatchWorker, ReceivingWorker, TempStorageWorker, SortingWorker, PutawayWorker;
    hide PackingWorker, ShippingWorker, Picker, Packer;
  }

  lemma SeededAt(p: Post)
    ensures NumberOf(p) < |SeededRoles()| == 14 && SeededRoles()[NumberOf(p)].name == NameOf(p)
    ensures 3 <= NumberOf(p) <= 12 ==>
              |FloorRoles()| == 10 && SeededRoles()[NumberOf(p)] == FloorRoles()[NumberOf(p) - 3]
    ensures SeededRoles()[0] == SuperAdmin() && SeededRoles()[1] == WarehouseAdmin()
    ensures SeededRoles()[2] == WarehouseManager() && SeededRoles()[13] == ViewerRole()
  {
    NameAt(p);
    FloorNames();
    hide NameOf, NumberOf, FloorRoles, SuperAdmin, WarehouseAdmin, WarehouseManager, ViewerRole, Names;
    RolesHaveNames(NumberOf(p));
    if 3 <= NumberOf(p) <= 12 {
      FloorIsSeeded(NumberOf(p) - 3);
    }
  }

  /** What a seeded role holds is what it may do. */
  lemma SeededMay(p: Post, k: Key)
    ensures NumberOf(p) < |SeededRoles()| == 14
    ensures SeededRoles()[NumberOf(p)].name == NameOf(p)
    ensures k in SeededRoles()[NumberOf(p)].permissions <==> May(p, k)
  {
    hide May, FloorRoles, WarehouseAdmin, WarehouseManager, ViewerRole, Names, NameOf, Permissions, SeededRoles;
    SeededAt(p);
    if 3 <= NumberOf(p) <= 12 {
      FloorAt(p, k);
    } else {
      CatalogueIs(k);
      ManagerIs(k);
      AdministratorIs(k);
      ViewerIs(k);
    }
  }

  /** The classes of the roles. */
  lemma ClassOf(p: Post)
    ensures NumberOf(p) < |SeededRoles()|
    ensures SeededRoles()[NumberOf(p)].class_
            == if Supervises(p) then Admin else if p.ViewerPost? then Viewer else Operational
  {
    SeededAt(p);
    hide SeededRoles, OfAll, Of, CommonView, Permissions, Keys, Product, IdentityWriteKeys, IdentityManagerWriteKeys;
    hide AdministratorKeys, ManagerKeys;
  }

  /** Every seeded role is one of the fourteen. */
  lemma PostOf(i: nat) returns (p: Post)
    requires i < |SeededRoles()|
    ensures NumberOf(p) == i
  {
    SeededMay(ViewerPost, Key(Audit, View));
    hide SeededRoles;
    p := if i == 0 then SuperAdministrator else if i == 1 then Administrator else if i == 2 then Manager
         else if i == 3 then InboundPost else if i == 4 then BatchPost else if i == 5 then ReceivingPost
         else if i == 6 then TempStoragePost else if i == 7 then SortingPost else if i == 8 then PutawayPost
         else if i == 9 then PackingPost else if i == 10 then ShippingPost else if i == 11 then PickerPost
         else if i == 12 then PackerPost else ViewerPost;
  }

  /** From any tables, after a run every one of the fourteen roles holds, of all keys, exactly
      those its post may use. */
  lemma AccessAfterRun(t: Tables, p: Post, k: Key)
    requires Granted(t)
    ensures var r := Run(t, SeededRoles());
            NameOf(p) in r.held && (k in r.held[NameOf(p)] <==> May(p, k))
  {
    SeededMay(p, k);
    hide Run, SeededRoles, Permissions, Granted, LegacyOnly, May, NameOf, NumberOf;
    SeedingConverges(t, NumberOf(p));
  }

  lemma MayExecute(p: Post, flow: Resource)
    ensures IsFlow(flow) ==> (May(p, Key(flow, Execute)) <==> Supervises(p) || WorksOn(p, flow))
    ensures flow.Batch? ==> (May(p, Key(flow, Execute)) <==> p.SuperAdministrator? || p.BatchPost?)
  {
    Separate(p, Key(flow, Execute));
    hide MayWithGoods, MayAdminister, WorksOn;
  }

  /** Who executes a flow afterwards: the three supervising roles and those who work on it; the
      batch only its own worker and the first administrator. */
  lemma ExecutionAfterRun(t: Tables, p: Post, flow: Resource)
    requires Granted(t)
    ensures var r := Run(t, SeededRoles());
            && NameOf(p) in r.held
            && (IsFlow(flow) ==> (Key(flow, Execute) in r.held[NameOf(p)] <==> Supervises(p) || WorksOn(p, flow)))
            && (flow.Batch? ==> (Key(flow, Execute) in r.held[NameOf(p)] <==> p.SuperAdministrator? || p.BatchPost?))
  {
    MayExecute(p, flow);
    hide Run, SeededRoles, Granted, NameOf, May, Supervises, WorksOn, IsFlow;
    AccessAfterRun(t, p, Key(flow, Execute));
  }

  lemma FlowUnseen(flow: Resource)
    requires IsFlow(flow)
    ensures May(Administrator, Key(flow, Execute)) && !May(Administrator, Key(flow, View))
  {
  }

  /** The administrator of the warehouse may execute the five flows and view none of them. */
  lemma AdministratorExecutesUnseen(t: Tables, flow: Resource)
    requires Granted(t) && IsFlow(flow)
    ensures var r := Run(t, SeededRoles());
            && "WAREHOUSE_ADMIN" in r.held
            && Key(flow, Execute) in r.held["WAREHOUSE_ADMIN"] && Key(flow, View) !in r.held["WAREHOUSE_ADMIN"]
  {
    FlowUnseen(flow);
    assert NameOf(Administrator) == "WAREHOUSE_ADMIN";
    hide Run, SeededRoles, Granted, May, NameOf, IsFlow;
    AccessAfterRun(t, Administrator, Key(flow, Execute));
    AccessAfterRun(t, Administrator, Key(flow, View));
  }
}
