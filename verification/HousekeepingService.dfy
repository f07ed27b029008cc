/** The housekeeping and room-status services, over the same tables as the movement service. */
module HousekeepingService {
  import opened Common
  import opened Kardex
  import opened Catalog
  import opened Zones
  import opened Ledger
  import opened HotelState
  import opened Housekeeping
  import opened Database
  import opened MovementService
  import Spec = Housekeeping

  function Found(last: map<Id, int>, product: Id): Option<int> {
    if product in last then Some(last[product]) else None
  }

  lemma HasProductNext(lines: seq<TaskLine>, k: nat)
    requires k < |lines|
    ensures forall product ::
              HasProduct(lines[..k + 1], product) <==> HasProduct(lines[..k], product) || lines[k].product == product
  {
    forall product
      ensures HasProduct(lines[..k + 1], product) <==> HasProduct(lines[..k], product) || lines[k].product == product
    {
      assert lines[..k + 1] == lines[..k] + [lines[k]];
      if HasProduct(lines[..k], product) {
        var j :| 0 <= j < k && lines[..k][j].product == product;
        assert lines[..k + 1][j].product == product;
      }
      assert lines[..k + 1][k] == lines[k];
    }
  }

  /** Lines that are not the product's extra line are passed over. */
  lemma {:induction false} AddLineFrom(lines: seq<TaskLine>, k: nat, product: Id, quantity: int)
    requires k <= |lines| && forall i :: 0 <= i < k ==> !(lines[i].product == product && lines[i].source == Extra)
    ensures AddLine(lines, product, quantity) == lines[..k] + AddLine(lines[k..], product, quantity)
  {
    if k == 0 {
      assert lines[0..] == lines && lines[..0] == [];
    } else {
      AddLineFrom(lines[1..], k - 1, product, quantity);
      assert lines[1..][k - 1..] == lines[k..] && lines[..k] == [lines[0]] + lines[1..][..k - 1];
    }
  }

  class HotelHousekeepingService {
    const db: Database
    const movements: HotelMovementService

    constructor (db: Database, movements: HotelMovementService)
      ensures this.db == db && this.movements == movements
    {
      this.db, this.movements := db, movements;
    }

    /** When each product was last used by a finished task of the room. */
    method LastUsedByProduct(room: Id) returns (last: map<Id, int>)
      ensures forall product :: Found(last, product) == LastUsed(db.tasks, room, product)
    {
      last := map[];
      for k := 0 to |db.tasks|
        invariant forall product :: Found(last, product) == LastUsed(db.tasks[..k], room, product)
      {
        var t := db.tasks[k];
        assert db.tasks[..k + 1][..k] == db.tasks[..k];
        if t.room == room && t.status == TaskFinished && t.finishedAt.Some? {
          last := UsedIn(last, t.lines, t.finishedAt.value);
        }
      }
      assert db.tasks[..|db.tasks|] == db.tasks;
    }

    static method UsedIn(last: map<Id, int>, lines: seq<TaskLine>, at: int) returns (after: map<Id, int>)
      ensures forall product ::
                Found(after, product)
                == if HasProduct(lines, product) then Latest(Found(last, product), Some(at)) else Found(last, product)
    {
      after := last;
      for k := 0 to |lines|
        invariant forall product ::
                    Found(after, product)
                    == if HasProduct(lines[..k], product) then Latest(Found(last, product), Some(at))
                       else Found(last, product)
      {
        HasProductNext(lines, k);
        var product := lines[k].product;
        if product !in after || at > after[product] {
          after := after[product := at];
        }
      }
      assert lines[..|lines|] == lines;
    }

    /** The kit lines that apply to a cleaning of the room. */
    method ResolveKitLines(lines: seq<KitLine>, room: Id, cleaning: CleaningType, at: int) returns (kept: seq<TaskLine>)
      ensures kept == KitLines(lines, db.tasks, room, cleaning, at)
    {
      var last := LastUsedByProduct(room);
      kept := [];
      for k := 0 to |lines|
        invariant kept == KitLines(lines[..k], db.tasks, room, cleaning, at)
      {
        assert lines[..k + 1][..k] == lines[..k];
        kept := kept + TaskLineOf(lines[k], cleaning, Found(last, lines[k].product), at);
      }
      assert lines[..|lines|] == lines;
    }

    /** Whether a task of the room ends with an inspection. */
    method InspectionFor(cat: Catalog, room: Room) returns (needed: bool)
      requires LookupEnds(cat, room.roomType, room.zone)
      ensures needed <==> NeedsInspection(cat, room.roomType, room.zone)
    {
      var typeRequires := room.roomType in cat.roomTypes && cat.roomTypes[room.roomType].requiresInspection;
      needed := InspectionRequired(cat.zones, typeRequires, room.zone);
    }

    /** Opens the task of a room that starts cleaning, inside the caller's transaction. */
    method OpenForRoom(cat: Catalog, room: Id, cleaning: CleaningType, at: int) returns (r: Result<Id>)
      requires room < |db.rooms| && LookupEnds(cat, db.rooms[room].roomType, db.rooms[room].zone)
      modifies db`tasks
      ensures match Spec.OpenForRoom(old(db.View()), cat, room, cleaning, at)
        case Ok(h) => r == Ok(|old(db.tasks)|) && db.View() == h
        case Err(e) => r == Err(e) && db.View() == old(db.View())
    {
      for k := 0 to |db.tasks|
        invariant forall j :: 0 <= j < k ==> !(db.tasks[j].room == room && IsOpenTask(db.tasks[j].status))
      {
        if db.tasks[k].room == room && IsOpenTask(db.tasks[k].status) {
          return Err(TaskOpenExists);
        }
      }
      var kit := ActiveKit(cat, db.rooms[room].roomType);
      var inspection := InspectionFor(cat, db.rooms[room]);
      var lines: seq<TaskLine> := [];
      if kit.Some? && cleaning != Turndown {
        lines := ResolveKitLines(kit.value.lines, room, cleaning, at);
      }
      r := Ok(|db.tasks|);
      db.tasks := db.tasks + [NewTask(room, cleaning, inspection, cleaning != Turndown && kit.None?, lines)];
    }

    /** A manual task of the supervisor; a stay needs an active kit. */
    method CreateManual(cat: Catalog, room: Id, cleaning: CleaningType, at: int) returns (r: Result<Id>)
      requires room < |db.rooms| ==> LookupEnds(cat, db.rooms[room].roomType, db.rooms[room].zone)
      modifies db`tasks
      ensures match CreateTask(old(db.View()), cat, room, cleaning, at)
        case Ok(h) => r == Ok(|old(db.tasks)|) && db.View() == h
        case Err(e) => r == Err(e) && db.View() == old(db.View())
    {
      if room >= |db.rooms| || !db.rooms[room].active {
        return Err(RoomNotFound);
      }
      if cleaning == Stay && ActiveKit(cat, db.rooms[room].roomType).None? {
        return Err(KitNotAvailable);
      }
      r := OpenForRoom(cat, room, cleaning, at);
    }

    /** The assignee needs an active cart of their own. */
    method Assign(cat: Catalog, id: Id, assignee: Id) returns (r: Result<()>)
      modifies db`tasks
      ensures match AssignTask(old(db.View()), cat, id, assignee)
        case Ok(h) => r == Ok(()) && db.View() == h
        case Err(e) => r == Err(e) && db.View() == old(db.View())
    {
      if id >= |db.tasks| {
        return Err(TaskNotFound);
      }
      if db.tasks[id].status != TaskPending {
        return Err(TaskNotPending);
      }
      if FindWarehouse(cat.warehouses, Cart, Some(assignee)).None? {
        return Err(CartRequired);
      }
      db.tasks := db.tasks[id := db.tasks[id].(assignee := Some(assignee))];
      r := Ok(());
    }

    /** Fixes the cart the consumption will come from. */
    method Start(cat: Catalog, id: Id) returns (r: Result<()>)
      modifies db`tasks
      ensures match StartTask(old(db.View()), cat, id)
        case Ok(h) => r == Ok(()) && db.View() == h
        case Err(e) => r == Err(e) && db.View() == old(db.View())
    {
      if id >= |db.tasks| {
        return Err(TaskNotFound);
      }
      var t := db.tasks[id];
      if t.status != TaskPending {
        return Err(TaskInvalidState);
      }
      if t.assignee.None? {
        return Err(TaskUnassigned);
      }
      var cart := FindWarehouse(cat.warehouses, Cart, t.assignee);
      if cart.None? {
        return Err(CartRequired);
      }
      db.tasks := db.tasks[id := t.(status := TaskInProgress, cart := cart)];
      r := Ok(());
    }

    method Cancel(id: Id) returns (r: Result<()>)
      modifies db`tasks
      ensures match CancelTask(old(db.View()), id)
        case Ok(h) => r == Ok(()) && db.View() == h
        case Err(e) => r == Err(e) && db.View() == old(db.View())
    {
      if id >= |db.tasks| {
        return Err(TaskNotFound);
      }
      if !IsOpenTask(db.tasks[id].status) {
        return Err(TaskInvalidState);
      }
      db.tasks := db.tasks[id := db.tasks[id].(status := TaskCancelled)];
      r := Ok(());
    }

    /** Adds an extra item to an open task, on top of the extra line of the same product. */
    method AddExtra(cat: Catalog, id: Id, product: Id, quantity: int) returns (r: Result<()>)
      modifies db`tasks
      ensures match Spec.AddExtra(old(db.View()), cat, id, product, quantity)
        case Ok(h) => r == Ok(()) && db.View() == h
        case Err(e) => r == Err(e) && db.View() == old(db.View())
    {
      if id >= |db.tasks| {
        return Err(TaskNotFound);
      }
      var t := db.tasks[id];
      if !IsOpenTask(t.status) {
        return Err(TaskInvalidState);
      }
      if product !in cat.products || !cat.products[product].active {
        return Err(ProductNotFound);
      }
      if cat.products[product].kind == Equipment {
        return Err(ProductNotKittable);
      }
      if cat.products[product].whole && quantity % UNIT != 0 {
        return Err(QuantityNotWhole);
      }
      var lines := WithExtra(t.lines, product, quantity);
      db.tasks := db.tasks[id := t.(lines := lines)];
      r := Ok(());
    }

    static method WithExtra(lines: seq<TaskLine>, product: Id, quantity: int) returns (after: seq<TaskLine>)
      ensures after == AddLine(lines, product, quantity)
    {
      var k := 0;
      while k < |lines| && !(lines[k].product == product && lines[k].source == Extra)
        invariant k <= |lines| && forall i :: 0 <= i < k ==> !(lines[i].product == product && lines[i].source == Extra)
      {
        k := k + 1;
      }
      AddLineFrom(lines, k, product, quantity);
      if k < |lines| {
        assert lines[k..][1..] == lines[k + 1..];
        after := lines[k := lines[k].(quantity := lines[k].quantity + quantity)];
      } else {
        after := lines + [TaskLine(product, quantity, Extra)];
      }
    }

    /** Splits the lines of a task into what is consumed and what travels to the laundry. */
    method SplitLinenLines(cat: Catalog, lines: seq<TaskLine>) returns (consumed: seq<LineInput>, linen: seq<LineInput>)
      ensures consumed == LinesToMove(cat, lines, false) && linen == LinesToMove(cat, lines, true)
    {
      consumed, linen := [], [];
      for k := 0 to |lines|
        invariant consumed + LinesToMove(cat, lines[k..], false) == LinesToMove(cat, lines, false)
        invariant linen + LinesToMove(cat, lines[k..], true) == LinesToMove(cat, lines, true)
      {
        assert lines[k..][1..] == lines[k + 1..];
        var line := LineInput(lines[k].product, lines[k].quantity, None, None, None);
        if IsLinen(cat, lines[k].product) {
          linen := linen + [line];
        } else {
          consumed := consumed + [line];
        }
      }
      assert consumed + [] == consumed && linen + [] == linen;
    }

    /** Posts one movement of a task, when it has lines, inside the caller's transaction. */
    method PostMovement(cat: Catalog, input: MovementInput, at: int) returns (r: Result<Option<Id>>)
      requires db.Valid() && movements.db == db
      modifies db`stock, db`movements
      ensures db.Valid()
      ensures match PostTaskMovement(old(db.Books()), cat, input, at)
        case Ok(moved) => r == Ok(moved.id) && db.Books() == moved.ledger
        case Err(e) => r == Err(e)
    {
      if input.lines == [] {
        return Ok(None);
      }
      var shape := MovementShapeError(input);
      if shape.Some? {
        return Err(shape.value);
      }
      var posted := movements.ApplyInTransaction(cat, input, None, at);
      r := if posted.Ok? then Ok(Some(posted.value)) else Err(posted.error);
    }

    /** Posts what the task consumed and then what travels to the laundry; the caller rolls back. */
    method PostConsumption(cat: Catalog, t: Task, at: int)
      returns (error: Option<Error>, movement: Option<Id>, linenMovement: Option<Id>)
      requires db.Valid() && movements.db == db
      modifies db`stock, db`movements
      ensures db.Valid()
      ensures match PostTaskMovements(old(db.Books()), cat, t, at)
        case Ok(posted) => error.None? && db.Books() == posted.ledger
                           && movement == posted.movement && linenMovement == posted.linenMovement
        case Err(e) => error == Some(e)
    {
      movement, linenMovement := None, None;
      var consumed, linen := SplitLinenLines(cat, t.lines);
      var input := MovementInput(RoomConsumption, t.cart, None, Some(t.room), None, None, false, consumed);
      var r := PostMovement(cat, input, at);
      if r.Err? {
        return Some(r.error), None, None;
      }
      movement := r.value;
      var laundry := FindWarehouse(cat.warehouses, Laundry, None);
      if linen != [] && laundry.None? {
        return Some(LaundryNotConfigured), None, None;
      }
      r := PostMovement(cat, MovementInput(LinenExchange, t.cart, laundry, Some(t.room), None, None, false, linen), at);
      if r.Err? {
        return Some(r.error), None, None;
      }
      error, linenMovement := None, r.value;
    }

    /**
     * Finishes a task in one transaction: consumes from the cart, sends the linen to the laundry, and
     * moves the room. Finishing a finished task changes nothing.
     */
    method Finish(cat: Catalog, id: Id, actor: Id, canManage: bool, at: int) returns (r: Result<()>)
      requires db.Valid() && movements.db == db
      modifies db`stock, db`movements, db`tasks, db`rooms
      ensures db.Valid()
      ensures match FinishTask(old(db.View()), cat, id, actor, canManage, at)
        case Ok(h) => r == Ok(()) && db.View() == h
        case Err(e) => r == Err(e) && db.View() == old(db.View())
    {
      if id >= |db.tasks| {
        return Err(TaskNotFound);
      }
      var t := db.tasks[id];
      if t.status == TaskFinished {
        return Ok(());
      }
      if t.status != TaskInProgress {
        return Err(TaskInvalidState);
      }
      if t.assignee.None? {
        return Err(TaskUnassigned);
      }
      if t.assignee != Some(actor) && !canManage {
        return Err(InsufficientPermissions);
      }
      if t.kitAlert && t.cleaning == Checkout {
        return Err(KitNotAvailable);
      }
      var stock, log := db.stock, db.movements;
      var error, movement, linenMovement := PostConsumption(cat, t, at);
      if error.Some? {
        db.stock, db.movements := stock, log;
        return Err(error.value);
      }
      if t.room < |db.rooms| {
        var next := RoomStatusAfterFinish(db.rooms[t.room].status, t);
        if next.Some? {
          SetRoomStatus(t.room, next.value);
        }
      }
      db.tasks := db.tasks[id := Finished(t, movement, linenMovement, at)];
      r := Ok(());
    }

    /** Updates a room and appends the change to its history. */
    method SetRoomStatus(id: Id, to: RoomStatus)
      requires id < |db.rooms|
      modifies db`rooms
      ensures db.rooms == MoveRoom(old(db.rooms), id, to)
    {
      var room := db.rooms[id];
      db.rooms := db.rooms[id := room.(status := to)];
      db.rooms := db.rooms[id := db.rooms[id].(history := room.history + [StatusChange(Some(room.status), to)])];
    }

    /** Inspects a finished task whose room waits for it. */
    method Inspect(id: Id, approved: bool, reason: Option<Id>) returns (r: Result<()>)
      modifies db`tasks, db`rooms
      ensures match InspectTask(old(db.View()), id, approved, reason)
        case Ok(h) => r == Ok(()) && db.View() == h
        case Err(e) => r == Err(e) && db.View() == old(db.View())
    {
      if id >= |db.tasks| {
        return Err(TaskNotFound);
      }
      var t := db.tasks[id];
      if t.room >= |db.rooms| || t.status != TaskFinished || db.rooms[t.room].status != Inspection {
        return Err(InspectionNotPending);
      }
      if t.inspected {
        return Err(InspectionExists);
      }
      if !approved && reason.None? {
        return Err(ReasonRequired);
      }
      db.tasks := db.tasks[id := t.(inspected := true)];
      SetRoomStatus(t.room, if approved then Available else Cleaning);
      if !approved {
        db.tasks := db.tasks + [ReworkOf(t)];
      }
      r := Ok(());
    }

    /** Whether a zone is in the caller's scope. */
    method ScopeHolds(zones: seq<Zone>, scope: Scope, zone: Id) returns (holds: bool)
      requires KnownScope(zones, scope)
      ensures holds <==> InScope(zones, scope, zone)
    {
      match scope {
        case AllZones => holds := true;
        case NoZones => holds := false;
        case AreaOf(supervised) =>
          var visible := VisibleZoneIds(zones, supervised);
          holds := zone in visible;
      }
    }

    /** Creates a room with the first row of its history. */
    method CreateRoom(cat: Catalog, zone: Id, roomType: Id, available: bool, scope: Scope) returns (r: Result<Id>)
      requires KnownScope(cat.zones, scope)
      modifies db`rooms
      ensures match Spec.CreateRoom(old(db.View()), cat, zone, roomType, available, scope)
        case Ok(h) => r == Ok(|old(db.rooms)|) && db.View() == h
        case Err(e) => r == Err(e) && db.View() == old(db.View())
    {
      if zone >= |cat.zones| || !cat.zones[zone].active {
        return Err(ZoneNotFound);
      }
      if cat.zones[zone].kind != Floor {
        return Err(ZoneNotFloor);
      }
      if roomType !in cat.roomTypes || !cat.roomTypes[roomType].active {
        return Err(RoomTypeNotFound);
      }
      var inScope := ScopeHolds(cat.zones, scope, zone);
      if !inScope {
        return Err(AccessDenied);
      }
      var status := if available then Available else Cleaning;
      r := Ok(|db.rooms|);
      db.rooms := db.rooms + [Room(zone, roomType, true, status, [StatusChange(None, status)])];
    }

    /** Changes a room's status by the catalog's rules, opening its task when it starts cleaning. */
    method ChangeStatus(cat: Catalog, id: Id, to: RoomStatus, reason: Option<Id>, caller: Caller, at: int)
      returns (r: Result<()>)
      requires id < |db.rooms| ==> LookupEnds(cat, db.rooms[id].roomType, db.rooms[id].zone)
      requires KnownScope(cat.zones, caller.scope)
      modifies db`tasks, db`rooms
      ensures match ChangeRoomStatus(old(db.View()), cat, id, to, reason, caller, at)
        case Ok(h) => r == Ok(()) && db.View() == h
        case Err(e) => r == Err(e) && db.View() == old(db.View())
    {
      if id >= |db.rooms| || !db.rooms[id].active {
        return Err(RoomNotFound);
      }
      var room := db.rooms[id];
      var inScope := ScopeHolds(cat.zones, caller.scope, room.zone);
      if !inScope {
        return Err(AccessDenied);
      }
      if room.status == to {
        return Ok(());
      }
      var refusal := RuleError(cat, room, to, reason, caller);
      if refusal.Some? {
        return Err(refusal.value);
      }
      var before := db.rooms;
      SetRoomStatus(id, to);
      var cleaning := OpensTask(room.status, to);
      if cleaning.Some? {
        var task := OpenForRoom(cat, id, cleaning.value, at);
        if task.Err? {
          db.rooms := before;
          return Err(task.error);
        }
      }
      r := Ok(());
    }
  }
}
