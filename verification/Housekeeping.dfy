/** Cleaning tasks and room status: how a task opens, runs, consumes its lines once, and moves its room. */
module Housekeeping {
  import opened Common
  import opened Kardex
  import opened Catalog
  import opened Zones
  import opened Ledger
  import opened HotelState

  // ----- rooms -----

  /** Writes a room's status and the matching row of its history. */
  function MoveRoom(rooms: seq<Room>, id: Id, to: RoomStatus): seq<Room>
    requires id < |rooms|
  {
    var room := rooms[id];
    rooms[id := room.(status := to, history := room.history + [StatusChange(Some(room.status), to)])]
  }

  ghost function CreateRoom(h: Hotel, cat: Catalog, zone: Id, roomType: Id, available: bool, scope: Scope):
    Result<Hotel>
  {
    if zone >= |cat.zones| || !cat.zones[zone].active then Err(ZoneNotFound)
    else if cat.zones[zone].kind != Floor then Err(ZoneNotFloor)
    else if roomType !in cat.roomTypes || !cat.roomTypes[roomType].active then Err(RoomTypeNotFound)
    else if !InScope(cat.zones, scope, zone) then Err(AccessDenied)
    else
      var status := if available then Available else Cleaning;
      Ok(h.(rooms := h.rooms + [Room(zone, roomType, true, status, [StatusChange(None, status)])]))
  }

  /** Edits a room's type and whether it is in use; its status and history stay. */
  ghost function EditRoom(h: Hotel, cat: Catalog, id: Id, roomType: Option<Id>, active: Option<bool>, scope: Scope):
    Result<Hotel>
  {
    if id >= |h.rooms| then Err(RoomNotFound)
    else if !InScope(cat.zones, scope, h.rooms[id].zone) then Err(AccessDenied)
    else if roomType.Some? && (roomType.value !in cat.roomTypes || !cat.roomTypes[roomType.value].active) then
      Err(RoomTypeNotFound)
    else
      var room := h.rooms[id];
      var edited := room.(roomType := if roomType.Some? then roomType.value else room.roomType,
                          active := if active.Some? then active.value else room.active);
      Ok(h.(rooms := h.rooms[id := edited]))
  }

  function FindRule(rules: seq<Transition>, from: RoomStatus, to: RoomStatus): Option<Transition> {
    if rules == [] then None
    else if rules[0].from == from && rules[0].to == to && rules[0].active then Some(rules[0])
    else FindRule(rules[1..], from, to)
  }

  /** Who changes a status: the zones in the caller's scope, and the permissions held with any scope. */
  datatype Caller = Caller(scope: Scope, permissions: set<Id>)

  /** The task a room that starts cleaning opens, by the status it comes from. */
  function OpensTask(from: RoomStatus, to: RoomStatus): Option<CleaningType> {
    if to != Cleaning then None
    else if from == Occupied then Some(Checkout)
    else if from == Maintenance || from == OutOfService then Some(Turndown)
    else None
  }

  /** Why the active rule from the room's status to another refuses the caller, or that there is none. */
  function RuleError(cat: Catalog, room: Room, to: RoomStatus, reason: Option<Id>, caller: Caller): Option<Error> {
    var rule := FindRule(cat.transitions, room.status, to);
    if rule.None? || rule.value.systemOnly then Some(RoomTransitionInvalid)
    else if rule.value.permission.Some? && rule.value.permission.value !in caller.permissions then Some(AccessDenied)
    else if rule.value.requiresActiveKit && ActiveKit(cat, room.roomType).None? then Some(KitNotAvailable)
    else if rule.value.requiresReason && (reason.None? || reason.value !in cat.roomReasons) then Some(ReasonRequired)
    else None
  }

  ghost function ChangeRoomStatus(h: Hotel, cat: Catalog, id: Id, to: RoomStatus, reason: Option<Id>, caller: Caller,
                                  at: int): Result<Hotel>
  {
    if id >= |h.rooms| || !h.rooms[id].active then Err(RoomNotFound)
    else if !InScope(cat.zones, caller.scope, h.rooms[id].zone) then Err(AccessDenied)
    else
      var room := h.rooms[id];
      if room.status == to then Ok(h)
      else
        var refusal := RuleError(cat, room, to, reason, caller);
        if refusal.Some? then Err(refusal.value)
        else
          var moved := h.(rooms := MoveRoom(h.rooms, id, to));
          match OpensTask(room.status, to)
          case None => Ok(moved)
          case Some(cleaning) => OpenForRoom(moved, cat, id, cleaning, at)
  }

  // ----- kits -----

  const MS_PER_DAY := 24 * 60 * 60 * 1000

  predicate HasProduct(lines: seq<TaskLine>, product: Id) {
    exists k :: 0 <= k < |lines| && lines[k].product == product
  }

  /** When a finished task of the room used the product. */
  function UsedAt(t: Task, room: Id, product: Id): Option<int> {
    if t.room == room && t.status == TaskFinished && HasProduct(t.lines, product) then t.finishedAt else None
  }

  function Latest(a: Option<int>, b: Option<int>): Option<int> {
    if a.None? || (b.Some? && b.value > a.value) then b else a
  }

  /** When the last finished task of the room that used the product finished. */
  function LastUsed(tasks: seq<Task>, room: Id, product: Id): Option<int> {
    if tasks == [] then None
    else Latest(LastUsed(tasks[..|tasks| - 1], room, product), UsedAt(tasks[|tasks| - 1], room, product))
  }

  /** A kit line applies to a cleaning: on a stay, an every-N-days line only N days after its last use. */
  predicate Applies(line: KitLine, cleaning: CleaningType, last: Option<int>, now: int) {
    if cleaning == Turndown then false
    else if line.frequency == EveryCleaning then true
    else if line.frequency == CheckoutOnly then cleaning == Checkout
    else
      || cleaning == Checkout || last.None?
      || (now - last.value) / MS_PER_DAY >= if line.everyNDays.Some? then line.everyNDays.value else 1
  }

  function TaskLineOf(line: KitLine, cleaning: CleaningType, last: Option<int>, now: int): seq<TaskLine> {
    if Applies(line, cleaning, last, now) then [TaskLine(line.product, line.quantity, LineSource.Kit)] else []
  }

  /** The lines of a kit that apply, as the lines of a task. */
  function KitLines(lines: seq<KitLine>, tasks: seq<Task>, room: Id, cleaning: CleaningType, now: int): seq<TaskLine> {
    if lines == [] then []
    else
      var line := lines[|lines| - 1];
      KitLines(lines[..|lines| - 1], tasks, room, cleaning, now)
      + TaskLineOf(line, cleaning, LastUsed(tasks, room, line.product), now)
  }

  // ----- tasks -----

  predicate IsOpenTask(s: TaskStatus) {
    s == TaskPending || s == TaskInProgress
  }

  predicate HasOpenTask(tasks: seq<Task>, room: Id) {
    exists i :: 0 <= i < |tasks| && tasks[i].room == room && IsOpenTask(tasks[i].status)
  }

  ghost function OpenForRoom(h: Hotel, cat: Catalog, room: Id, cleaning: CleaningType, at: int): Result<Hotel>
    requires room < |h.rooms|
  {
    if HasOpenTask(h.tasks, room) then Err(TaskOpenExists)
    else
      var kit := ActiveKit(cat, h.rooms[room].roomType);
      var lines :=
        if kit.Some? && cleaning != Turndown then KitLines(kit.value.lines, h.tasks, room, cleaning, at) else [];
      var inspection := NeedsInspection(cat, h.rooms[room].roomType, h.rooms[room].zone);
      Ok(h.(tasks := h.tasks + [NewTask(room, cleaning, inspection, cleaning != Turndown && kit.None?, lines)]))
  }

  function NewTask(room: Id, cleaning: CleaningType, inspection: bool, kitAlert: bool, lines: seq<TaskLine>): Task {
    Task(room, cleaning, TaskPending, None, None, inspection, false, kitAlert, false, None, None, None, lines)
  }

  /** A manual task; a stay needs an active kit. */
  ghost function CreateTask(h: Hotel, cat: Catalog, room: Id, cleaning: CleaningType, at: int): Result<Hotel> {
    if room >= |h.rooms| || !h.rooms[room].active then Err(RoomNotFound)
    else if cleaning == Stay && ActiveKit(cat, h.rooms[room].roomType).None? then Err(KitNotAvailable)
    else OpenForRoom(h, cat, room, cleaning, at)
  }

  function SetTask(h: Hotel, id: Id, t: Task): Hotel
    requires id < |h.tasks|
  {
    h.(tasks := h.tasks[id := t])
  }

  function AssignTask(h: Hotel, cat: Catalog, id: Id, assignee: Id): Result<Hotel> {
    if id >= |h.tasks| then Err(TaskNotFound)
    else if h.tasks[id].status != TaskPending then Err(TaskNotPending)
    else if FindWarehouse(cat.warehouses, Cart, Some(assignee)).None? then Err(CartRequired)
    else Ok(SetTask(h, id, h.tasks[id].(assignee := Some(assignee))))
  }

  /** Starting fixes the cart the consumption will come from. */
  function StartTask(h: Hotel, cat: Catalog, id: Id): Result<Hotel> {
    if id >= |h.tasks| then Err(TaskNotFound)
    else if h.tasks[id].status != TaskPending then Err(TaskInvalidState)
    else if h.tasks[id].assignee.None? then Err(TaskUnassigned)
    else
      var cart := FindWarehouse(cat.warehouses, Cart, h.tasks[id].assignee);
      if cart.None? then Err(CartRequired)
      else Ok(SetTask(h, id, h.tasks[id].(status := TaskInProgress, cart := cart)))
  }

  /** Adds to the extra line of a product, creating it when there is none. */
  function AddLine(lines: seq<TaskLine>, product: Id, quantity: int): seq<TaskLine> {
    if lines == [] then [TaskLine(product, quantity, Extra)]
    else if lines[0].product == product && lines[0].source == Extra then
      [lines[0].(quantity := lines[0].quantity + quantity)] + lines[1..]
    else [lines[0]] + AddLine(lines[1..], product, quantity)
  }

  function AddExtra(h: Hotel, cat: Catalog, id: Id, product: Id, quantity: int): Result<Hotel> {
    if id >= |h.tasks| then Err(TaskNotFound)
    else if !IsOpenTask(h.tasks[id].status) then Err(TaskInvalidState)
    else if product !in cat.products || !cat.products[product].active then Err(ProductNotFound)
    else if cat.products[product].kind == Equipment then Err(ProductNotKittable)
    else if cat.products[product].whole && quantity % UNIT != 0 then Err(QuantityNotWhole)
    else Ok(SetTask(h, id, h.tasks[id].(lines := AddLine(h.tasks[id].lines, product, quantity))))
  }

  function CancelTask(h: Hotel, id: Id): Result<Hotel> {
    if id >= |h.tasks| then Err(TaskNotFound)
    else if !IsOpenTask(h.tasks[id].status) then Err(TaskInvalidState)
    else Ok(SetTask(h, id, h.tasks[id].(status := TaskCancelled)))
  }

  // ----- finishing -----

  predicate IsLinen(cat: Catalog, product: Id) {
    product in cat.products && cat.products[product].kind == Linen
  }

  /** The linen lines, or the others, as movement lines that use the default locations. */
  function LinesToMove(cat: Catalog, lines: seq<TaskLine>, linen: bool): seq<LineInput> {
    if lines == [] then []
    else if IsLinen(cat, lines[0].product) == linen then
      [LineInput(lines[0].product, lines[0].quantity, None, None, None)] + LinesToMove(cat, lines[1..], linen)
    else LinesToMove(cat, lines[1..], linen)
  }

  function RoomStatusAfterFinish(room: RoomStatus, t: Task): Option<RoomStatus> {
    if room != Cleaning then None
    else if t.isRework then Some(Inspection)
    else if t.cleaning == Stay then None
    else if t.requiresInspection then Some(Inspection) else Some(Available)
  }

  datatype Moved = Moved(ledger: Ledger, id: Option<Id>)

  /** Posts a task's movement of one kind; nothing when it has no lines. */
  function PostTaskMovement(l: Ledger, cat: Catalog, i: MovementInput, at: int): Result<Moved> {
    if i.lines == [] then Ok(Moved(l, None))
    else if MovementShapeError(i).Some? then Err(MovementShapeError(i).value)
    else
      var l' :- ApplyInTransaction(l, cat, i, None, at);
      Ok(Moved(l', Some(|l.movements|)))
  }

  function ConsumptionInput(cat: Catalog, t: Task): MovementInput {
    MovementInput(RoomConsumption, t.cart, None, Some(t.room), None, None, false, LinesToMove(cat, t.lines, false))
  }

  function LinenInput(cat: Catalog, t: Task, laundry: Option<Id>): MovementInput {
    MovementInput(LinenExchange, t.cart, laundry, Some(t.room), None, None, false, LinesToMove(cat, t.lines, true))
  }

  datatype TaskPostings = TaskPostings(ledger: Ledger, movement: Option<Id>, linenMovement: Option<Id>)

  /** What finishing a task posts: the consumption from its cart, then the linen to the laundry. */
  function PostTaskMovements(l: Ledger, cat: Catalog, t: Task, at: int): Result<TaskPostings> {
    var consumed :- PostTaskMovement(l, cat, ConsumptionInput(cat, t), at);
    var laundry := FindWarehouse(cat.warehouses, Laundry, None);
    if LinesToMove(cat, t.lines, true) != [] && laundry.None? then Err(LaundryNotConfigured)
    else
      var exchanged :- PostTaskMovement(consumed.ledger, cat, LinenInput(cat, t, laundry), at);
      Ok(TaskPostings(exchanged.ledger, consumed.id, exchanged.id))
  }

  function FinishTask(h: Hotel, cat: Catalog, id: Id, actor: Id, canManage: bool, at: int): Result<Hotel> {
    if id >= |h.tasks| then Err(TaskNotFound)
    else if h.tasks[id].status == TaskFinished then Ok(h)
    else if h.tasks[id].status != TaskInProgress then Err(TaskInvalidState)
    else if h.tasks[id].assignee.None? then Err(TaskUnassigned)
    else if h.tasks[id].assignee != Some(actor) && !canManage then Err(InsufficientPermissions)
    else if h.tasks[id].kitAlert && h.tasks[id].cleaning == Checkout then Err(KitNotAvailable)
    else
      var t := h.tasks[id];
      var posted :- PostTaskMovements(h.ledger, cat, t, at);
      var done := Finished(t, posted.movement, posted.linenMovement, at);
      Ok(SetTask(h.(ledger := posted.ledger, rooms := RoomAfterFinish(h.rooms, t)), id, done))
  }

  function Finished(t: Task, movement: Option<Id>, linenMovement: Option<Id>, at: int): Task {
    t.(status := TaskFinished, finishedAt := Some(at), movement := movement, linenMovement := linenMovement)
  }

  function RoomAfterFinish(rooms: seq<Room>, t: Task): seq<Room> {
    if t.room >= |rooms| then rooms
    else
      match RoomStatusAfterFinish(rooms[t.room].status, t)
      case None => rooms
      case Some(next) => MoveRoom(rooms, t.room, next)
  }

  /** The task a rejection opens: a checkout without lines. */
  function ReworkOf(t: Task): Task {
    Task(t.room, Checkout, TaskPending, None, None, t.requiresInspection, true, false, false, None, None, None, [])
  }

  /**
   * Inspects a finished task whose room waits for it. A rejection needs a reason, sends the room back
   * to cleaning, and opens a rework task without lines.
   */
  function InspectTask(h: Hotel, id: Id, approved: bool, reason: Option<Id>): Result<Hotel> {
    if id >= |h.tasks| then Err(TaskNotFound)
    else
      var t := h.tasks[id];
      if t.room >= |h.rooms| || t.status != TaskFinished || h.rooms[t.room].status != Inspection then
        Err(InspectionNotPending)
      else if t.inspected then Err(InspectionExists)
      else if !approved && reason.None? then Err(ReasonRequired)
      else
        var rework := if approved then [] else [ReworkOf(t)];
        Ok(h.(tasks := h.tasks[id := t.(inspected := true)] + rework,
              rooms := MoveRoom(h.rooms, t.room, if approved then Available else Cleaning)))
  }
}
