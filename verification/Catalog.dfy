/**
 * What the services read but do not write: products, locations, warehouses, reasons, zones, room types with
 * their kits, and the room-status rules. Administrators may change it between any two calls, so every call carries the
 * catalog it reads.
 */
module Catalog {
  import opened Common
  import opened Kardex
  import opened Zones

  datatype ProductKind = Consumable | Linen | Chemical | Equipment

  datatype Product = Product(active: bool, whole: bool, kind: ProductKind, lastCost: Option<int>)

  datatype Location = Location(id: Id, warehouse: Id, isDefault: bool, active: bool)

  datatype WarehouseKind = AdminStore | Central | ZoneStore | Cart | Laundry

  datatype Warehouse = Warehouse(id: Id, kind: WarehouseKind, owner: Option<Id>, active: bool)

  datatype RoomStatus = Cleaning | Inspection | Available | Occupied | Maintenance | OutOfService

  /** `permission` is the one a caller needs besides the scope over the room's zone. */
  datatype Transition = Transition(
    from: RoomStatus, to: RoomStatus, active: bool, systemOnly: bool, permission: Option<Id>, requiresReason: bool,
    requiresActiveKit: bool)

  datatype KitFrequency = EveryCleaning | CheckoutOnly | EveryNDays

  datatype KitLine = KitLine(product: Id, quantity: int, frequency: KitFrequency, everyNDays: Option<int>)

  datatype Kit = Kit(active: bool, lines: seq<KitLine>)

  datatype RoomType = RoomType(active: bool, requiresInspection: bool, kit: Option<Kit>)

  datatype Catalog = Catalog(
    products: map<Id, Product>, locations: seq<Location>, warehouses: seq<Warehouse>,
    /** The active adjustment reason of stock counts. */
    countReason: Option<Id>,
    /** The active reasons for a room status. */
    roomReasons: set<Id>,
    roomTypes: map<Id, RoomType>, zones: seq<Zone>,
    transitions: seq<Transition>, thresholds: Thresholds)

  /** The kit of a room type, when it is active. */
  function ActiveKit(cat: Catalog, roomType: Id): Option<Kit> {
    if roomType in cat.roomTypes && cat.roomTypes[roomType].kit.Some? && cat.roomTypes[roomType].kit.value.active then
      cat.roomTypes[roomType].kit
    else None
  }

  /** The zones a caller may act on: all of them, those it supervises and what lies below, or none. */
  datatype Scope = AllZones | AreaOf(supervised: seq<Id>) | NoZones

  ghost predicate InScope(zones: seq<Zone>, scope: Scope, zone: Id) {
    match scope
    case AllZones => true
    case AreaOf(supervised) => BelowSome(zones, zone, supervised)
    case NoZones => false
  }

  /** Supervised zones are rows of the zone table. */
  predicate KnownScope(zones: seq<Zone>, scope: Scope) {
    scope.AreaOf? ==> forall k :: 0 <= k < |scope.supervised| ==> scope.supervised[k] < |zones|
  }

  /** The room type asks for inspection, or the room's zone or one above it does. */
  ghost predicate NeedsInspection(cat: Catalog, roomType: Id, zone: Id) {
    (roomType in cat.roomTypes && cat.roomTypes[roomType].requiresInspection) || InspectedAbove(cat.zones, zone)
  }

  /** The lookup of that ends: the type asks for inspection, or climbing from the zone stops. */
  ghost predicate LookupEnds(cat: Catalog, roomType: Id, zone: Id) {
    (roomType in cat.roomTypes && cat.roomTypes[roomType].requiresInspection) || ClimbStops(cat.zones, zone)
  }

  /** Quantities are integers in thousandths of a unit, the precision of the quantity columns. */
  const UNIT := 1000

  predicate HasLocation(locations: seq<Location>, id: Id, warehouse: Id) {
    exists i ::
      0 <= i < |locations| && locations[i].id == id && locations[i].warehouse == warehouse && locations[i].active
  }

  function FirstDefault(locations: seq<Location>, warehouse: Id): Option<Id> {
    if locations == [] then None
    else if locations[0].warehouse == warehouse && locations[0].isDefault && locations[0].active then
      Some(locations[0].id)
    else FirstDefault(locations[1..], warehouse)
  }

  /** The location given, or the warehouse's default. It must belong to the warehouse and be active. */
  function LocationOf(cat: Catalog, warehouse: Id, given: Option<Id>): Result<Id> {
    match given
    case Some(id) => if HasLocation(cat.locations, id, warehouse) then Ok(id) else Err(LocationNotInWarehouse)
    case None =>
      match FirstDefault(cat.locations, warehouse)
      case Some(id) => Ok(id)
      case None => Err(LocationNotInWarehouse)
  }

  /** The first active warehouse of a kind, and of an owner when one is asked for. */
  function FindWarehouse(warehouses: seq<Warehouse>, kind: WarehouseKind, owner: Option<Id>): Option<Id> {
    if warehouses == [] then None
    else if warehouses[0].kind == kind && warehouses[0].active && (owner.None? || warehouses[0].owner == owner) then
      Some(warehouses[0].id)
    else FindWarehouse(warehouses[1..], kind, owner)
  }
}
