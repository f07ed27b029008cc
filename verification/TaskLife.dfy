/**
 * The life of a cleaning task and what it does to its room: when each call is accepted, what it writes, and what
 * stays fixed over a run.
 */
module TaskLife {
  import opened Common
  import opened Catalog
  import opened Zones
  import opened HotelState
  import opened Housekeeping
  import opened HotelRuns
  import opened TaskLaws

  // ----- opening -----

  /** An unassigned, unstarted task of a room. */
  ghost predicate IsNewTask(t: Task, room: Id, cleaning: CleaningType) {
    && t.room == room && t.cleaning == cleaning && t.status == TaskPending
    && t.assignee.None? && t.cart.None? && !t.inspected
    && t.finishedAt.None? && t.movement.None? && t.linenMovement.None?
  }

  /** The room type's kit, active. */
  predicate HasActiveKit(cat: Catalog, roomType: Id) {
    && roomType in cat.roomTypes && cat.roomTypes[roomType].kit.Some?
    && cat.roomTypes[roomType].kit.value.active
  }

  predicate HasOpen(tasks: seq<Task>, room: Id) {
    exists k ::
      0 <= k < |tasks| && tasks[k].room == room && (tasks[k].status == TaskPending || tasks[k].status == TaskInProgress)
  }

  /**
   * A room's task opens exactly when the room has none open. A checkout or stay without an active kit carries the
   * kit alert; with one it gets the kit's lines. A turndown gets neither.
   */
  lemma OpensExactly(h: Hotel, cat: Catalog, room: Id, cleaning: CleaningType, at: int)
    requires room < |h.rooms|
    ensures var r := OpenForRoom(h, cat, room, cleaning, at); var roomType := h.rooms[room].roomType;
      && (r.Ok? <==> !HasOpen(h.tasks, room))
      && (r.Ok? ==>
            && r.value == h.(tasks := r.value.tasks) && |r.value.tasks| == |h.tasks| + 1
            && var t := r.value.tasks[|h.tasks|];
            && r.value.tasks == h.tasks + [t] && IsNewTask(t, room, cleaning) && !t.isRework
            && (t.requiresInspection <==>
                  (roomType in cat.roomTypes && cat.roomTypes[roomType].requiresInspection)
                  || InspectedAbove(cat.zones, h.rooms[room].zone))
            && (t.kitAlert <==> cleaning != Turndown && !HasActiveKit(cat, roomType))
            && t.lines == if cleaning == Turndown || t.kitAlert then []
                          else KitLines(cat.roomTypes[roomType].kit.value.lines, h.tasks, room, cleaning, at))
  {
    if HasOpen(h.tasks, room) {
      var k :| 0 <= k < |h.tasks| && h.tasks[k].room == room
        && (h.tasks[k].status == TaskPending || h.tasks[k].status == TaskInProgress);
      assert IsOpenTask(h.tasks[k].status);
    }
  }

  /** A manual task needs an active room and, for a stay, an active kit; then it opens as any other. */
  lemma ManualExactly(h: Hotel, cat: Catalog, room: Id, cleaning: CleaningType, at: int)
    ensures var r := CreateTask(h, cat, room, cleaning, at);
      && (r.Ok? <==>
            && room < |h.rooms| && h.rooms[room].active && !HasOpen(h.tasks, room)
            && (cleaning == Stay ==> HasActiveKit(cat, h.rooms[room].roomType)))
      && (r.Ok? ==> r == OpenForRoom(h, cat, room, cleaning, at))
  {
    if room < |h.rooms| {
      OpensExactly(h, cat, room, cleaning, at);
    }
  }

  /** A room is created exactly on an active floor in scope and with an active type; its history is one row. */
  lemma CreatesRoomExactly(h: Hotel, cat: Catalog, zone: Id, roomType: Id, available: bool, scope: Scope)
    ensures var r := CreateRoom(h, cat, zone, roomType, available, scope);
      && (r.Ok? <==>
            && zone < |cat.zones| && cat.zones[zone].active && cat.zones[zone].kind == Floor
            && roomType in cat.roomTypes && cat.roomTypes[roomType].active && InScope(cat.zones, scope, zone))
      && (r.Ok? ==>
            && |r.value.rooms| == |h.rooms| + 1
            && var room := r.value.rooms[|h.rooms|];
            && r.value == h.(rooms := h.rooms + [room])
            && room.zone == zone && room.roomType == roomType && room.active
            && room.status == (if available then Available else Cleaning)
            && room.history == [StatusChange(None, room.status)])
  {
  }

  /** A finished task of the room that lists the product, and when it finished. */
  ghost predicate UsedBy(t: Task, room: Id, product: Id, at: int) {
    && t.room == room && t.status == TaskFinished && t.finishedAt == Some(at)
    && exists k :: 0 <= k < |t.lines| && t.lines[k].product == product
  }

  /** The last use of a product in a room is the latest finish of such a task; without any there is none. */
  lemma LastUseExactly(tasks: seq<Task>, room: Id, product: Id)
    ensures var last := LastUsed(tasks, room, product);
      && (last.Some? ==> exists i :: 0 <= i < |tasks| && UsedBy(tasks[i], room, product, last.value))
      && forall i, at :: 0 <= i < |tasks| && UsedBy(tasks[i], room, product, at) ==> last.Some? && at <= last.value
  {
    LastUsedIsLatest(tasks, room, product);
    var last := LastUsed(tasks, room, product);
    if last.Some? {
      var i :| 0 <= i < |tasks| && UsedAt(tasks[i], room, product) == last;
      assert UsedBy(tasks[i], room, product, last.value);
    }
    forall i, at | 0 <= i < |tasks| && UsedBy(tasks[i], room, product, at) ensures last.Some? && at <= last.value {
      assert HasProduct(tasks[i].lines, product);
    }
  }

  /** When a kit line applies, in days since the last use in the room. */
  predicate IsDue(line: KitLine, cleaning: CleaningType, last: Option<int>, now: int) {
    match line.frequency
    case EveryCleaning => cleaning != Turndown
    case CheckoutOnly => cleaning == Checkout
    case EveryNDays =>
      || cleaning == Checkout
      || (cleaning == Stay && (last.Some? ==> now >= last.value + DaysOf(line) * MS_PER_DAY))
  }

  function DaysOf(line: KitLine): int {
    if line.everyNDays.Some? then line.everyNDays.value else 1
  }

  lemma WholeDaysPassed(ms: int, days: int)
    ensures ms / MS_PER_DAY >= days <==> ms >= days * MS_PER_DAY
  {
  }

  lemma AppliesExactly(line: KitLine, cleaning: CleaningType, last: Option<int>, now: int)
    ensures Applies(line, cleaning, last, now) <==> IsDue(line, cleaning, last, now)
  {
    if last.Some? {
      WholeDaysPassed(now - last.value, DaysOf(line));
    }
  }

  /** Total of a product on the kit lines that are due. */
  function DueTotal(lines: seq<KitLine>, cleaning: CleaningType, last: Option<int>, now: int, product: Id): int {
    if lines == [] then 0
    else
      var line := lines[|lines| - 1];
      DueTotal(lines[..|lines| - 1], cleaning, last, now, product)
      + if line.product == product && IsDue(line, cleaning, last, now) then line.quantity else 0
  }

  lemma {:induction false} TaskTotalSplit(a: seq<TaskLine>, b: seq<TaskLine>, product: Id)
    ensures TaskTotal(a + b, product) == TaskTotal(a, product) + TaskTotal(b, product)
  {
    if a == [] {
      assert a + b == b;
    } else {
      TaskTotalSplit(a[1..], b, product);
      assert (a + b)[1..] == a[1..] + b;
    }
  }

  /** A task gets, of each product, the quantities of the kit lines that are due, and nothing else. */
  lemma {:induction false} KitTotal(lines: seq<KitLine>, tasks: seq<Task>, room: Id, cleaning: CleaningType, now: int,
                                    product: Id)
    ensures TaskTotal(KitLines(lines, tasks, room, cleaning, now), product)
         == DueTotal(lines, cleaning, LastUsed(tasks, room, product), now, product)
  {
    if lines != [] {
      var front, line := lines[..|lines| - 1], lines[|lines| - 1];
      var last := LastUsed(tasks, room, line.product);
      KitTotal(front, tasks, room, cleaning, now, product);
      TaskTotalSplit(KitLines(front, tasks, room, cleaning, now), TaskLineOf(line, cleaning, last, now), product);
      AppliesExactly(line, cleaning, last, now);
      OneLineTotal(line, cleaning, last, now, product);
    }
  }

  lemma OneLineTotal(line: KitLine, cleaning: CleaningType, last: Option<int>, now: int, product: Id)
    ensures TaskTotal(TaskLineOf(line, cleaning, last, now), product)
         == if line.product == product && Applies(line, cleaning, last, now) then line.quantity else 0
  {
    var lines := TaskLineOf(line, cleaning, last, now);
    if lines != [] {
      assert lines[1..] == [];
    }
  }

  // ----- assigning and starting -----

  /** `cart` is an active cart of the owner. */
  predicate IsCartOf(cat: Catalog, owner: Id, cart: Id) {
    exists k ::
      && 0 <= k < |cat.warehouses| && cat.warehouses[k].id == cart && cat.warehouses[k].kind == WarehouseKind.Cart
      && cat.warehouses[k].owner == Some(owner) && cat.warehouses[k].active
  }

  lemma {:induction false} CartFound(cat: Catalog, warehouses: seq<Warehouse>, owner: Id)
    requires forall w :: w in warehouses ==> w in cat.warehouses
    ensures var found := FindWarehouse(warehouses, WarehouseKind.Cart, Some(owner));
      && (found.Some? ==> IsCartOf(cat, owner, found.value))
      && (found.None? ==> forall k :: 0 <= k < |warehouses| ==>
            !(warehouses[k].kind == WarehouseKind.Cart && warehouses[k].owner == Some(owner) && warehouses[k].active))
  {
    if warehouses != [] {
      CartFound(cat, warehouses[1..], owner);
      assert warehouses[0] in cat.warehouses;
      assert forall k :: 0 < k < |warehouses| ==> warehouses[k] == warehouses[1..][k - 1];
    }
  }

  ghost predicate OwnsCart(cat: Catalog, owner: Id) {
    exists cart :: IsCartOf(cat, owner, cart)
  }

  lemma CartExactly(cat: Catalog, owner: Id)
    ensures var found := FindWarehouse(cat.warehouses, WarehouseKind.Cart, Some(owner));
      (found.Some? <==> OwnsCart(cat, owner)) && (found.Some? ==> IsCartOf(cat, owner, found.value))
  {
    CartFound(cat, cat.warehouses, owner);
    if OwnsCart(cat, owner) {
      var cart :| IsCartOf(cat, owner, cart);
      var k :| 0 <= k < |cat.warehouses| && cat.warehouses[k].id == cart
        && cat.warehouses[k].kind == WarehouseKind.Cart && cat.warehouses[k].owner == Some(owner)
        && cat.warehouses[k].active;
    }
  }

  /** Only the given task is written. */
  ghost predicate Writes(h: Hotel, after: Hotel, id: Id, t: Task) {
    id < |h.tasks| && after == h.(tasks := h.tasks[id := t])
  }

  lemma AssignsExactly(h: Hotel, cat: Catalog, id: Id, assignee: Id)
    ensures var r := AssignTask(h, cat, id, assignee);
      && (r.Ok? <==> id < |h.tasks| && h.tasks[id].status == TaskPending && OwnsCart(cat, assignee))
      && (r.Ok? ==> Writes(h, r.value, id, h.tasks[id].(assignee := Some(assignee))))
  {
    CartExactly(cat, assignee);
  }

  /** Starting takes a pending, assigned task whose assignee has an active cart, and fixes that cart. */
  lemma StartsExactly(h: Hotel, cat: Catalog, id: Id)
    ensures var r := StartTask(h, cat, id);
      && (r.Ok? <==>
            && id < |h.tasks| && h.tasks[id].status == TaskPending && h.tasks[id].assignee.Some?
            && OwnsCart(cat, h.tasks[id].assignee.value))
      && (r.Ok? ==>
            && |r.value.tasks| == |h.tasks|
            && var cart := r.value.tasks[id].cart;
            && cart.Some? && IsCartOf(cat, h.tasks[id].assignee.value, cart.value)
            && Writes(h, r.value, id, h.tasks[id].(status := TaskInProgress, cart := cart)))
  {
    if id < |h.tasks| && h.tasks[id].assignee.Some? {
      CartExactly(cat, h.tasks[id].assignee.value);
    }
  }

  /** Dropping ends a task that is pending or in progress, and extras go to such tasks only. */
  lemma DropsExactly(h: Hotel, id: Id)
    ensures var r := CancelTask(h, id);
      && (r.Ok? <==> id < |h.tasks| && (h.tasks[id].status == TaskPending || h.tasks[id].status == TaskInProgress))
      && (r.Ok? ==> Writes(h, r.value, id, h.tasks[id].(status := TaskCancelled)))
  {
  }

  lemma ExtrasExactly(h: Hotel, cat: Catalog, id: Id, product: Id, quantity: int)
    ensures var r := AddExtra(h, cat, id, product, quantity);
      && (r.Ok? <==>
            && id < |h.tasks| && (h.tasks[id].status == TaskPending || h.tasks[id].status == TaskInProgress)
            && product in cat.products && cat.products[product].active && cat.products[product].kind != Equipment
            && (cat.products[product].whole ==> quantity % UNIT == 0))
      && (r.Ok? ==> |r.value.tasks| == |h.tasks|
                    && Writes(h, r.value, id, h.tasks[id].(lines := r.value.tasks[id].lines))
                    && forall other :: TaskTotal(r.value.tasks[id].lines, other)
                        == TaskTotal(h.tasks[id].lines, other) + if other == product then quantity else 0)
  {
    if AddExtra(h, cat, id, product, quantity).Ok? {
      forall other {
        ExtraTotal(h.tasks[id].lines, product, quantity, other);
      }
    }
  }

  // ----- finishing and inspecting -----

  /** The room moves to a status, by one row of its history. */
  predicate MovesTo(room: Room, after: Room, to: RoomStatus) {
    after == room.(status := to, history := room.history + [StatusChange(Some(room.status), to)])
  }

  /**
   * What a finish leaves of the room: a room still being cleaned goes to inspection after a rework or when the task
   * asks for it, stays as it is after a stay, and is available otherwise; other rooms are left alone.
   */
  predicate RoomFinished(room: Room, t: Task, after: Room) {
    if room.status != Cleaning then after == room
    else if t.isRework then MovesTo(room, after, Inspection)
    else
      match t.cleaning
      case Stay => after == room
      case Checkout | Turndown => MovesTo(room, after, if t.requiresInspection then Inspection else Available)
  }

  /** All rooms but one are left alone. */
  ghost predicate OtherRoomsStay(before: seq<Room>, after: seq<Room>, id: Id) {
    |after| == |before| && forall i :: 0 <= i < |before| && i != id ==> after[i] == before[i]
  }

  /**
   * A task in progress is finished exactly by its assignee or a manager, unless it is a checkout with the kit
   * alert, and when its movements can be posted. It becomes finished with them, and its room moves on.
   */
  lemma FinishesExactly(h: Hotel, cat: Catalog, id: Id, actor: Id, canManage: bool, at: int)
    requires id < |h.tasks| && h.tasks[id].status != TaskFinished
    ensures var r, t := FinishTask(h, cat, id, actor, canManage, at), h.tasks[id];
      && (r.Ok? <==>
            && t.status == TaskInProgress && t.assignee.Some? && (t.assignee.value == actor || canManage)
            && !(t.kitAlert && t.cleaning == Checkout) && PostTaskMovements(h.ledger, cat, t, at).Ok?)
      && (r.Ok? ==>
            && var after := r.value;
            && |after.tasks| == |h.tasks|
            && var done := after.tasks[id];
            && after == h.(ledger := after.ledger, rooms := after.rooms, tasks := h.tasks[id := done])
            && done == t.(status := TaskFinished, finishedAt := Some(at), movement := done.movement,
                          linenMovement := done.linenMovement)
            && OtherRoomsStay(h.rooms, after.rooms, t.room)
            && (t.room < |h.rooms| ==> RoomFinished(h.rooms[t.room], t, after.rooms[t.room])))
  {
  }

  ghost predicate IsRework(t: Task, rework: Task) {
    IsNewTask(rework, t.room, Checkout) && rework.isRework && !rework.kitAlert && rework.lines == []
    && rework.requiresInspection == t.requiresInspection
  }

  /**
   * A finished task is inspected once, while its room waits for inspection. An approval makes the room available;
   * a rejection, which needs a reason, sends it back to cleaning and opens a rework task.
   */
  lemma InspectsExactly(h: Hotel, id: Id, approved: bool, reason: Option<Id>)
    ensures var r := InspectTask(h, id, approved, reason);
      && (r.Ok? <==>
            && id < |h.tasks| && h.tasks[id].status == TaskFinished && !h.tasks[id].inspected
            && h.tasks[id].room < |h.rooms| && h.rooms[h.tasks[id].room].status == Inspection
            && (approved || reason.Some?))
      && (r.Ok? ==>
            && var after, t := r.value, h.tasks[id];
            && after == h.(tasks := after.tasks, rooms := after.rooms)
            && OtherRoomsStay(h.rooms, after.rooms, t.room)
            && MovesTo(h.rooms[t.room], after.rooms[t.room], if approved then Available else Cleaning)
            && |after.tasks| == |h.tasks| + (if approved then 0 else 1)
            && after.tasks[..|h.tasks|] == h.tasks[id := t.(inspected := true)]
            && (!approved ==> IsRework(t, after.tasks[|h.tasks|])))
  {
    var r := InspectTask(h, id, approved, reason);
    if r.Ok? {
      var inspected := h.tasks[id := h.tasks[id].(inspected := true)];
      assert r.value.tasks == inspected + if approved then [] else [ReworkOf(h.tasks[id])];
      assert r.value.tasks[..|h.tasks|] == inspected;
    }
  }

  // ----- scope -----

  /** The zone is in the caller's scope: all are, or climbing from it meets a zone the caller supervises. */
  ghost predicate Reaches(zones: seq<Zone>, scope: Scope, zone: Id) {
    || scope.AllZones?
    || (scope.AreaOf? && exists k, n: nat ::
          0 <= k < |scope.supervised| && Climb(zones, Some(zone), n) == Some(scope.supervised[k]))
  }

  lemma ScopeExactly(zones: seq<Zone>, scope: Scope, zone: Id)
    ensures InScope(zones, scope, zone) <==> Reaches(zones, scope, zone)
  {
    if scope.AreaOf? && Reaches(zones, scope, zone) {
      var k, n: nat :| 0 <= k < |scope.supervised| && Climb(zones, Some(zone), n) == Some(scope.supervised[k]);
      assert Below(zones, zone, scope.supervised[k]);
    }
  }

  /** Outside its scope a caller changes no room's status. */
  lemma OutOfScopeRefused(h: Hotel, cat: Catalog, id: Id, to: RoomStatus, reason: Option<Id>, caller: Caller, at: int)
    requires id < |h.rooms| && h.rooms[id].active && !Reaches(cat.zones, caller.scope, h.rooms[id].zone)
    ensures ChangeRoomStatus(h, cat, id, to, reason, caller, at) == Err(AccessDenied)
  {
    ScopeExactly(cat.zones, caller.scope, h.rooms[id].zone);
  }

  // ----- changing a room's status -----

  /** An active rule for the change that the caller may use, with what it asks for. */
  predicate Allows(cat: Catalog, rule: Transition, room: Room, reason: Option<Id>, caller: Caller) {
    && !rule.systemOnly
    && (rule.permission.Some? ==> rule.permission.value in caller.permissions)
    && (rule.requiresActiveKit ==> HasActiveKit(cat, room.roomType))
    && (rule.requiresReason ==> reason.Some? && reason.value in cat.roomReasons)
  }

  predicate IsRule(rule: Transition, from: RoomStatus, to: RoomStatus) {
    rule.active && rule.from == from && rule.to == to
  }

  /** The first active rule for the change. */
  ghost predicate RuleAt(cat: Catalog, from: RoomStatus, to: RoomStatus, k: nat) {
    && k < |cat.transitions| && IsRule(cat.transitions[k], from, to)
    && forall j :: 0 <= j < k ==> !IsRule(cat.transitions[j], from, to)
  }

  ghost predicate RuleAllows(cat: Catalog, room: Room, to: RoomStatus, reason: Option<Id>, caller: Caller) {
    exists k: nat :: RuleAt(cat, room.status, to, k) && Allows(cat, cat.transitions[k], room, reason, caller)
  }

  lemma {:induction false} RuleFound(rules: seq<Transition>, from: RoomStatus, to: RoomStatus) returns (k: nat)
    ensures var found := FindRule(rules, from, to);
      && k <= |rules| && (found.Some? <==> k < |rules|)
      && (found.Some? ==> found.value == rules[k] && IsRule(rules[k], from, to))
      && forall j :: 0 <= j < k ==> !IsRule(rules[j], from, to)
  {
    k := 0;
    if rules != [] && !IsRule(rules[0], from, to) {
      var j := RuleFound(rules[1..], from, to);
      k := j + 1;
      assert forall i :: 0 < i < |rules| ==> rules[i] == rules[1..][i - 1];
    }
  }

  /** The task a change opens: leaving an occupied room a checkout, leaving maintenance or out of service a turndown. */
  predicate OpensOn(from: RoomStatus, to: RoomStatus, cleaning: CleaningType) {
    && to == Cleaning
    && ((from == Occupied && cleaning == Checkout)
        || ((from == Maintenance || from == OutOfService) && cleaning == Turndown))
  }

  lemma RuleExactly(cat: Catalog, room: Room, to: RoomStatus, reason: Option<Id>, caller: Caller)
    ensures RuleError(cat, room, to, reason, caller).None? <==> RuleAllows(cat, room, to, reason, caller)
  {
    var k := RuleFound(cat.transitions, room.status, to);
    if k < |cat.transitions| {
      assert RuleAt(cat, room.status, to, k);
    }
    forall j: nat | RuleAt(cat, room.status, to, j) ensures j == k {
    }
  }

  /**
   * An administrator's change of an active room in scope is accepted exactly when it stays in place, or the first
   * active rule for it allows it and the task it opens, if any, can open. It moves that room alone.
   */
  lemma ChangesExactly(h: Hotel, cat: Catalog, id: Id, to: RoomStatus, reason: Option<Id>, caller: Caller, at: int)
    requires id < |h.rooms| && h.rooms[id].active && InScope(cat.zones, caller.scope, h.rooms[id].zone)
    ensures var r, room := ChangeRoomStatus(h, cat, id, to, reason, caller, at), h.rooms[id];
      && (room.status == to ==> r == Ok(h))
      && (room.status != to ==>
            && (r.Ok? <==>
                  && RuleAllows(cat, room, to, reason, caller)
                  && ((exists cleaning :: OpensOn(room.status, to, cleaning)) ==> !HasOpen(h.tasks, id)))
            && (r.Ok? ==>
                  && var after := r.value;
                  && after == h.(tasks := after.tasks, rooms := after.rooms)
                  && OtherRoomsStay(h.rooms, after.rooms, id) && MovesTo(room, after.rooms[id], to)
                  && (if exists cleaning :: OpensOn(room.status, to, cleaning) then
                        && |after.tasks| == |h.tasks| + 1
                        && after.tasks == h.tasks + [after.tasks[|h.tasks|]]
                        && OpensOn(room.status, to, after.tasks[|h.tasks|].cleaning)
                        && IsNewTask(after.tasks[|h.tasks|], id, after.tasks[|h.tasks|].cleaning)
                      else after.tasks == h.tasks)))
  {
    var room := h.rooms[id];
    if room.status != to {
      RuleExactly(cat, room, to, reason, caller);
      var opens := OpensTask(room.status, to);
      assert opens.Some? ==> OpensOn(room.status, to, opens.value);
      if opens.Some? {
        OpensExactly(h.(rooms := MoveRoom(h.rooms, id, to)), cat, id, opens.value, at);
      }
    }
  }

  // ----- over a run -----

  /** A task that has left pending keeps its room, its kind, its assignee and its cart, and never returns. */
  predicate StaysStarted(t: Task, after: Task) {
    && after.room == t.room && after.cleaning == t.cleaning && after.isRework == t.isRework
    && after.requiresInspection == t.requiresInspection
    && (t.status != TaskPending ==>
          after.status != TaskPending && after.assignee == t.assignee && after.cart == t.cart)
  }

  ghost predicate AllStayStarted(before: seq<Task>, after: seq<Task>) {
    && |before| <= |after|
    && forall i :: 0 <= i < |before| ==> StaysStarted(before[i], after[i])
  }

  lemma OneStaysStarted(tasks: seq<Task>, id: Id, t: Task)
    requires id < |tasks| && StaysStarted(tasks[id], t)
    ensures AllStayStarted(tasks, tasks[id := t])
  {
  }

  lemma FinishStaysStarted(h: Hotel, cat: Catalog, id: Id, actor: Id, canManage: bool, at: int)
    requires FinishTask(h, cat, id, actor, canManage, at).Ok?
    ensures AllStayStarted(h.tasks, FinishTask(h, cat, id, actor, canManage, at).value.tasks)
  {
    if h.tasks[id].status != TaskFinished {
      FinishesExactly(h, cat, id, actor, canManage, at);
      OneStaysStarted(h.tasks, id, FinishTask(h, cat, id, actor, canManage, at).value.tasks[id]);
    }
  }

  lemma InspectStaysStarted(h: Hotel, id: Id, approved: bool, reason: Option<Id>)
    requires InspectTask(h, id, approved, reason).Ok?
    ensures AllStayStarted(h.tasks, InspectTask(h, id, approved, reason).value.tasks)
  {
    var after := InspectTask(h, id, approved, reason).value.tasks;
    InspectsExactly(h, id, approved, reason);
    assert forall i :: 0 <= i < |h.tasks| ==> after[i] == after[..|h.tasks|][i];
  }

  lemma TaskOpStaysStarted(h: Hotel, cat: Catalog, at: int, op: TaskOp)
    requires ExecTask(h, cat, at, op).Ok?
    ensures AllStayStarted(h.tasks, ExecTask(h, cat, at, op).value.tasks)
  {
    match op {
      case OpenTask(room, cleaning) => OpensExactly(h, cat, room, cleaning, at);
      case Assign(id, assignee) =>
        AssignsExactly(h, cat, id, assignee);
        OneStaysStarted(h.tasks, id, h.tasks[id].(assignee := Some(assignee)));
      case Begin(id) =>
        StartsExactly(h, cat, id);
        OneStaysStarted(h.tasks, id, StartTask(h, cat, id).value.tasks[id]);
      case Extras(id, product, quantity) =>
        ExtrasExactly(h, cat, id, product, quantity);
        OneStaysStarted(h.tasks, id, AddExtra(h, cat, id, product, quantity).value.tasks[id]);
      case Finish(id, actor, canManage) =>
        FinishStaysStarted(h, cat, id, actor, canManage, at);
      case DropTask(id) =>
        DropsExactly(h, id);
        OneStaysStarted(h.tasks, id, h.tasks[id].(status := TaskCancelled));
      case Inspect(id, approved, reason) => InspectStaysStarted(h, id, approved, reason);
    }
  }

  lemma CallStaysStarted(h: Hotel, c: Call)
    ensures AllStayStarted(h.tasks, Step(h, c).tasks)
  {
    if Exec(h, c).Ok? {
      match c.op {
        case Tasks(op) => TaskOpStaysStarted(h, c.cat, c.at, op);
        case Rooms(op) => assert h.tasks <= Step(h, c).tasks;
        case _ => assert Step(h, c).tasks == h.tasks;
      }
    }
  }

  lemma {:induction false} RunStaysStarted(h: Hotel, calls: seq<Call>)
    ensures AllStayStarted(h.tasks, Run(h, calls).tasks)
    decreases |calls|
  {
    if calls != [] {
      var next, last := Step(h, calls[0]), Run(h, calls);
      CallStaysStarted(h, calls[0]);
      RunStaysStarted(next, calls[1..]);
      forall i | 0 <= i < |h.tasks| ensures StaysStarted(h.tasks[i], last.tasks[i]) {
        assert StaysStarted(h.tasks[i], next.tasks[i]) && StaysStarted(next.tasks[i], last.tasks[i]);
      }
    }
  }

  /**
   * Once started, a task keeps for ever the cart it started with, an active cart its assignee then had; whenever a
   * later call finishes it, that is where its movements take from.
   */
  lemma CartIsFixed(h: Hotel, start: Call, calls: seq<Call>, id: Id)
    requires start.op == Tasks(Begin(id)) && Exec(h, start).Ok?
    ensures id < |h.tasks| && h.tasks[id].assignee.Some?
    ensures var later := Run(Step(h, start), calls);
      && id < |later.tasks|
      && var t := later.tasks[id];
      && t.status != TaskPending && t.assignee == h.tasks[id].assignee
      && t.cart.Some? && IsCartOf(start.cat, h.tasks[id].assignee.value, t.cart.value)
  {
    StartsExactly(h, start.cat, id);
    RunStaysStarted(Step(h, start), calls);
    assert StaysStarted(Step(h, start).tasks[id], Run(Step(h, start), calls).tasks[id]);
  }

  /** Why a call moved a room: a rule, the end of a cleaning, or an inspection. */
  ghost predicate Moves(h: Hotel, c: Call, id: Id, to: RoomStatus)
    requires id < |h.rooms|
  {
    match c.op
    case Rooms(op) =>
      op.ChangeStatus? && op.id == id && op.to == to && RuleAllows(c.cat, h.rooms[id], to, op.reason, op.caller)
    case Tasks(op) =>
      || (op.Finish? && op.id < |h.tasks| && h.tasks[op.id].room == id && h.tasks[op.id].status == TaskInProgress
          && h.rooms[id].status == Cleaning && (to == Inspection || to == Available))
      || (op.Inspect? && op.id < |h.tasks| && h.tasks[op.id].room == id && h.tasks[op.id].status == TaskFinished
          && h.rooms[id].status == Inspection && to == if op.approved then Available else Cleaning)
    case _ => false
  }

  /** A call leaves a room's status and history alone, or moves it once, for one of these reasons. */
  lemma RoomMovesForAReason(h: Hotel, c: Call, id: Id)
    requires id < |h.rooms|
    ensures id < |Step(h, c).rooms|
    ensures var room, after := h.rooms[id], Step(h, c).rooms[id];
      || (after.status == room.status && after.history == room.history)
      || (MovesTo(room, after, after.status) && Moves(h, c, id, after.status))
  {
    if Exec(h, c).Ok? {
      match c.op {
        case Tasks(op) => TaskMovesRoom(h, c, op, id);
        case Rooms(op) =>
          if op.ChangeStatus? && h.rooms[op.id].status != op.to {
            ChangesExactly(h, c.cat, op.id, op.to, op.reason, op.caller, c.at);
          }
        case _ => assert Step(h, c).rooms == h.rooms;
      }
    }
  }

  lemma TaskMovesRoom(h: Hotel, c: Call, op: TaskOp, id: Id)
    requires id < |h.rooms| && c.op == Tasks(op) && Exec(h, c).Ok?
    ensures id < |Step(h, c).rooms|
    ensures var room, after := h.rooms[id], Step(h, c).rooms[id];
      after == room || (MovesTo(room, after, after.status) && Moves(h, c, id, after.status))
  {
    match op {
      case Finish(task, actor, canManage) =>
        if h.tasks[task].status != TaskFinished {
          FinishesExactly(h, c.cat, task, actor, canManage, c.at);
        }
      case Inspect(task, approved, reason) => InspectsExactly(h, task, approved, reason);
      case _ => assert Step(h, c).rooms == h.rooms;
    }
  }
}
