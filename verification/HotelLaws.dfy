/** What every call of the hotel store keeps. */
module HotelLaws {
  import opened Common
  import opened Stock
  import opened Kardex
  import opened Catalog
  import opened Ledger
  import opened HotelState
  import opened Stocktakes
  import opened StocktakeLaws
  import opened Housekeeping
  import opened HotelRuns

  // ----- the ledger over one call -----

  ghost predicate AddsAt(before: seq<Movement>, after: seq<Movement>, at: int) {
    && Extends(before, after)
    && forall i :: |before| <= i < |after| ==> after[i].createdAt == at
  }

  /** Movements of room tasks are not among the added ones. */
  ghost predicate AddsNoTaskMovement(before: seq<Movement>, after: seq<Movement>) {
    forall i :: |before| <= i < |after| ==> IsCancellable(after[i].kind)
  }

  lemma AddsAtTransitive(a: seq<Movement>, b: seq<Movement>, c: seq<Movement>, at: int)
    requires AddsAt(a, b, at) && AddsAt(b, c, at)
    ensures AddsAt(a, c, at)
  {
    forall i | 0 <= i < |a| ensures SameMovement(a[i], c[i]) {
      assert SameMovement(a[i], b[i]) && SameMovement(b[i], c[i]);
    }
    forall i | |a| <= i < |c| ensures c[i].createdAt == at {
      if i < |b| {
        assert SameMovement(b[i], c[i]);
      }
    }
  }

  lemma ExtendsTransitive(a: seq<Movement>, b: seq<Movement>, c: seq<Movement>)
    requires Extends(a, b) && Extends(b, c)
    ensures Extends(a, c)
  {
    forall i | 0 <= i < |a| ensures SameMovement(a[i], c[i]) {
      assert SameMovement(a[i], b[i]) && SameMovement(b[i], c[i]);
    }
  }

  /** A step of the ledger from `l` to `after` at time `at`. */
  ghost predicate LedgerStep(l: Ledger, after: Ledger, at: int) {
    LedgerInv(after, at) && AddsAt(l.movements, after.movements, at)
  }

  lemma PostStep(l: Ledger, cat: Catalog, i: MovementInput, requestId: Option<Id>, at: int, clock: int)
    requires LedgerInv(l, clock) && clock <= at && Post(l, cat, i, requestId, at).Ok?
    ensures var after := Post(l, cat, i, requestId, at).value.ledger;
      LedgerStep(l, after, at) && AddsNoTaskMovement(l.movements, after.movements)
  {
    PostKeeps(l, cat, i, requestId, at, clock);
  }

  lemma StatusOnlyStep(l: Ledger, id: Id, stock: seq<Row>, status: MovementStatus, at: int, clock: int)
    requires id < |l.movements| && StatusStep(l.movements[id].status, status) && clock <= at
    requires LedgerInv(SetStatus(l, id, stock, status), clock)
    ensures var after := SetStatus(l, id, stock, status);
      LedgerStep(l, after, at) && AddsNoTaskMovement(l.movements, after.movements)
  {
  }

  lemma ExecMovementStep(l: Ledger, cat: Catalog, at: int, op: MovementOp, clock: int)
    requires LedgerInv(l, clock) && clock <= at && ExecMovement(l, cat, at, op).Ok?
    ensures var after := ExecMovement(l, cat, at, op).value;
      LedgerStep(l, after, at) && AddsNoTaskMovement(l.movements, after.movements)
  {
    match op {
      case PostMovement(i, requestId) => PostStep(l, cat, i, requestId, at, clock);
      case ApproveMovement(id) =>
        ApproveKeeps(l, id, clock);
        StatusOnlyStep(l, id, Approve(l, id).value.stock, Active, at, clock);
      case RejectMovement(id) =>
        RejectKeeps(l, id, clock);
        StatusOnlyStep(l, id, l.stock, Cancelled, at, clock);
      case CancelMovement(id) =>
        CancelKeeps(l, id, clock);
        StatusOnlyStep(l, id, Cancel(l, id).value.stock, Cancelled, at, clock);
    }
  }

  lemma ApplyStep(l: Ledger, cat: Catalog, i: MovementInput, at: int, clock: int)
    requires LedgerInv(l, clock) && clock <= at && MovementShapeError(i).None?
    requires ApplyInTransaction(l, cat, i, None, at).Ok?
    ensures LedgerStep(l, ApplyInTransaction(l, cat, i, None, at).value, at)
  {
    ApplyInTransactionKeeps(l, cat, i, None, at, clock);
  }

  lemma AdjustmentStep(l: Ledger, cat: Catalog, kind: MovementType, warehouse: Id, reason: Id, id: Id,
                       rows: seq<Adjustment>, at: int, clock: int)
    requires LedgerInv(l, clock) && clock <= at && IsCancellable(kind)
    requires PostAdjustment(l, cat, kind, warehouse, reason, id, rows, at).Ok?
    ensures var after := PostAdjustment(l, cat, kind, warehouse, reason, id, rows, at).value;
      LedgerStep(l, after, at) && AddsNoTaskMovement(l.movements, after.movements)
  {
    if rows != [] {
      ApplyStep(l, cat, AdjustmentInput(kind, warehouse, reason, id, rows), at, clock);
    }
  }

  lemma CountApprovalStep(l: Ledger, cat: Catalog, warehouse: Id, id: Id, rows: seq<Adjustment>, at: int, clock: int)
    requires LedgerInv(l, clock) && clock < at && PostAdjustments(l, cat, warehouse, id, rows, at).Ok?
    ensures var after := PostAdjustments(l, cat, warehouse, id, rows, at).value;
      LedgerStep(l, after, at) && AddsNoTaskMovement(l.movements, after.movements)
  {
    if (Upward(rows) != [] || Downward(rows) != []) && cat.countReason.Some? {
      var reason := cat.countReason.value;
      var l1 := PostAdjustment(l, cat, AdjustIn, warehouse, reason, id, Upward(rows), at).value;
      var l2 := PostAdjustment(l1, cat, AdjustOut, warehouse, reason, id, Downward(rows), at).value;
      AdjustmentStep(l, cat, AdjustIn, warehouse, reason, id, Upward(rows), at, clock);
      AdjustmentStep(l1, cat, AdjustOut, warehouse, reason, id, Downward(rows), at, at);
      AddsAtTransitive(l.movements, l1.movements, l2.movements, at);
      forall i | |l.movements| <= i < |l2.movements| ensures IsCancellable(l2.movements[i].kind) {
        if i < |l1.movements| {
          assert SameMovement(l1.movements[i], l2.movements[i]);
        }
      }
    }
  }

  lemma TaskMovementStep(l: Ledger, cat: Catalog, i: MovementInput, at: int, clock: int)
    requires LedgerInv(l, clock) && clock <= at && PostTaskMovement(l, cat, i, at).Ok?
    ensures LedgerStep(l, PostTaskMovement(l, cat, i, at).value.ledger, at)
  {
    if i.lines != [] {
      ApplyStep(l, cat, i, at, clock);
    }
  }

  lemma FinishStep(l: Ledger, cat: Catalog, t: Task, at: int, clock: int)
    requires LedgerInv(l, clock) && clock < at && PostTaskMovements(l, cat, t, at).Ok?
    ensures LedgerStep(l, PostTaskMovements(l, cat, t, at).value.ledger, at)
  {
    var l1 := PostTaskMovement(l, cat, ConsumptionInput(cat, t), at).value.ledger;
    var linen := LinenInput(cat, t, FindWarehouse(cat.warehouses, Laundry, None));
    TaskMovementStep(l, cat, ConsumptionInput(cat, t), at, clock);
    TaskMovementStep(l1, cat, linen, at, at);
    AddsAtTransitive(l.movements, l1.movements, PostTaskMovement(l1, cat, linen, at).value.ledger.movements, at);
  }

  lemma ExecCountStep(h: Hotel, cat: Catalog, at: int, op: CountOp, clock: int)
    requires LedgerInv(h.ledger, clock) && clock < at && ExecCount(h, cat, at, op).Ok?
    ensures var after := ExecCount(h, cat, at, op).value.ledger;
      LedgerStep(h.ledger, after, at) && AddsNoTaskMovement(h.ledger.movements, after.movements)
  {
    if op.ApproveTheCount? {
      var st := h.stocktakes[op.id];
      var rows := Adjustments(st.warehouse, Since(h.ledger.movements, st.warehouse, st.snapshotAt.value), st.lines);
      CountApprovalStep(h.ledger, cat, st.warehouse, op.id, rows, at, clock);
    }
  }

  lemma ExecTaskStep(h: Hotel, cat: Catalog, at: int, op: TaskOp, clock: int)
    requires LedgerInv(h.ledger, clock) && clock < at && ExecTask(h, cat, at, op).Ok?
    ensures LedgerStep(h.ledger, ExecTask(h, cat, at, op).value.ledger, at)
    ensures !op.Finish? ==> ExecTask(h, cat, at, op).value.ledger == h.ledger
  {
    if op.Finish? && h.tasks[op.id].status != TaskFinished {
      FinishStep(h.ledger, cat, h.tasks[op.id], at, clock);
    }
  }

  predicate IsFinish(op: Op) {
    op.Tasks? && op.t.Finish?
  }

  /** Whatever the call, the ledger keeps its invariant and its log only grows, at the call's time. */
  lemma ExecKeepsLedger(h: Hotel, c: Call, clock: int)
    requires LedgerInv(h.ledger, clock) && clock < c.at
    ensures LedgerStep(h.ledger, Step(h, c).ledger, c.at)
    ensures !IsFinish(c.op) ==> AddsNoTaskMovement(h.ledger.movements, Step(h, c).ledger.movements)
  {
    if Exec(h, c).Ok? {
      match c.op {
        case Movements(m) => ExecMovementStep(h.ledger, c.cat, c.at, m, clock);
        case Counts(op) => ExecCountStep(h, c.cat, c.at, op, clock);
        case Tasks(op) => ExecTaskStep(h, c.cat, c.at, op, clock);
        case Rooms(_) =>
      }
    }
  }

  // ----- counts over one call -----

  ghost predicate StocktakeOk(st: Stocktake, clock: int) {
    && (st.status == CountDraft ==> st.lines == [] && st.snapshotAt.None?)
    && (st.status == Counting || st.status == CountPending || st.status == CountApplied ==>
          st.snapshotAt.Some? && st.snapshotAt.value <= clock)
    && (st.status == CountPending || st.status == CountApplied ==> AllCounted(st.lines))
    && CountsNonNegative(st.lines)
  }

  /** No warehouse has two counts open at once. */
  ghost predicate OneOpenCount(stocktakes: seq<Stocktake>) {
    forall i, j :: 0 <= i < j < |stocktakes| && stocktakes[i].warehouse == stocktakes[j].warehouse
      ==> !IsOpen(stocktakes[i].status) || !IsOpen(stocktakes[j].status)
  }

  ghost predicate StocktakesInv(stocktakes: seq<Stocktake>, clock: int) {
    && (forall i :: 0 <= i < |stocktakes| ==> StocktakeOk(stocktakes[i], clock))
    && OneOpenCount(stocktakes)
  }

  /** How a call may change an existing count. */
  ghost predicate StocktakeStep(st: Stocktake, after: Stocktake) {
    && after.warehouse == st.warehouse
    && (!IsOpen(st.status) ==> after == st)
    && (IsOpen(after.status) ==> IsOpen(st.status))
  }

  /** A step of the table of counts at time `at`: counts are added, and existing ones only move on. */
  ghost predicate StocktakesStep(before: seq<Stocktake>, after: seq<Stocktake>, at: int) {
    && StocktakesInv(after, at)
    && |before| <= |after|
    && forall i :: 0 <= i < |before| ==> StocktakeStep(before[i], after[i])
  }

  lemma SetStocktakeStep(stocktakes: seq<Stocktake>, id: Id, st: Stocktake, clock: int, at: int)
    requires StocktakesInv(stocktakes, clock) && clock <= at && id < |stocktakes|
    requires StocktakeStep(stocktakes[id], st) && StocktakeOk(st, at)
    ensures StocktakesStep(stocktakes, stocktakes[id := st], at)
  {
  }

  lemma OpenCountStep(h: Hotel, cat: Catalog, warehouse: Id, clock: int, at: int)
    requires StocktakesInv(h.stocktakes, clock) && clock <= at && CreateStocktake(h, cat, warehouse).Ok?
    ensures StocktakesStep(h.stocktakes, CreateStocktake(h, cat, warehouse).value.stocktakes, at)
  {
  }

  lemma ExecKeepsStocktakes(h: Hotel, c: Call, clock: int)
    requires StocktakesInv(h.stocktakes, clock) && clock < c.at
    ensures StocktakesStep(h.stocktakes, Step(h, c).stocktakes, c.at)
  {
    if c.op.Counts? && Exec(h, c).Ok? {
      var after := Step(h, c).stocktakes;
      match c.op.c {
        case OpenCount(w) => OpenCountStep(h, c.cat, w, clock, c.at);
        case StartCount(id) =>
          PhotoUncounted(h.ledger.stock, h.stocktakes[id].warehouse);
          SetStocktakeStep(h.stocktakes, id, after[id], clock, c.at);
        case CaptureCounts(id, counts) =>
          CaptureNonNegative(c.cat, h.stocktakes[id].lines, counts, h.stocktakes[id].warehouse);
          SetStocktakeStep(h.stocktakes, id, after[id], clock, c.at);
        case CloseCount(id, _) => SetStocktakeStep(h.stocktakes, id, after[id], clock, c.at);
        case ApproveTheCount(id, _, _) => SetStocktakeStep(h.stocktakes, id, after[id], clock, c.at);
        case CancelTheCount(id) => SetStocktakeStep(h.stocktakes, id, after[id], clock, c.at);
      }
    } else {
      assert Step(h, c).stocktakes == h.stocktakes;
    }
  }

  // ----- rooms over one call -----

  /**
   * A room's history is a connected chain: it starts from nothing, each change starts at the status
   * the previous one reached, none stays in place, and the last reached is the current status.
   */
  ghost predicate Chained(room: Room) {
    var hist := room.history;
    && hist != [] && hist[0].from.None?
    && (forall i :: 0 < i < |hist| ==> hist[i].from == Some(hist[i - 1].to) && hist[i].to != hist[i - 1].to)
    && hist[|hist| - 1].to == room.status
  }

  ghost predicate RoomsInv(rooms: seq<Room>) {
    forall i :: 0 <= i < |rooms| ==> Chained(rooms[i])
  }

  lemma MoveRoomChained(rooms: seq<Room>, id: Id, to: RoomStatus)
    requires RoomsInv(rooms) && id < |rooms| && rooms[id].status != to
    ensures RoomsInv(MoveRoom(rooms, id, to))
  {
    var room := rooms[id];
    assert Chained(MoveRoom(rooms, id, to)[id]);
  }

  lemma RoomAfterFinishChained(rooms: seq<Room>, t: Task)
    requires RoomsInv(rooms)
    ensures RoomsInv(RoomAfterFinish(rooms, t)) && |RoomAfterFinish(rooms, t)| == |rooms|
  {
    if t.room < |rooms| && RoomStatusAfterFinish(rooms[t.room].status, t).Some? {
      MoveRoomChained(rooms, t.room, RoomStatusAfterFinish(rooms[t.room].status, t).value);
    }
  }

  lemma ChangeRoomStatusChained(h: Hotel, cat: Catalog, id: Id, to: RoomStatus, reason: Option<Id>, caller: Caller,
                                at: int)
    requires RoomsInv(h.rooms) && ChangeRoomStatus(h, cat, id, to, reason, caller, at).Ok?
    ensures RoomsInv(ChangeRoomStatus(h, cat, id, to, reason, caller, at).value.rooms)
    ensures |ChangeRoomStatus(h, cat, id, to, reason, caller, at).value.rooms| == |h.rooms|
  {
    if h.rooms[id].status != to {
      MoveRoomChained(h.rooms, id, to);
    }
  }

  lemma InspectChained(h: Hotel, id: Id, approved: bool, reason: Option<Id>)
    requires RoomsInv(h.rooms) && InspectTask(h, id, approved, reason).Ok?
    ensures RoomsInv(InspectTask(h, id, approved, reason).value.rooms)
    ensures |InspectTask(h, id, approved, reason).value.rooms| == |h.rooms|
  {
    MoveRoomChained(h.rooms, h.tasks[id].room, if approved then Available else Cleaning);
  }

  lemma EditRoomChained(h: Hotel, cat: Catalog, id: Id, roomType: Option<Id>, active: Option<bool>, scope: Scope)
    requires RoomsInv(h.rooms) && EditRoom(h, cat, id, roomType, active, scope).Ok?
    ensures RoomsInv(EditRoom(h, cat, id, roomType, active, scope).value.rooms)
  {
    assert Chained(h.rooms[id]);
    assert Chained(EditRoom(h, cat, id, roomType, active, scope).value.rooms[id]);
  }

  /** Task calls move rooms only by finishing and inspecting. */
  lemma ExecTaskRooms(h: Hotel, cat: Catalog, at: int, op: TaskOp)
    requires RoomsInv(h.rooms) && ExecTask(h, cat, at, op).Ok?
    ensures var after := ExecTask(h, cat, at, op).value.rooms; RoomsInv(after) && |after| == |h.rooms|
  {
    match op {
      case Finish(id, _, _) => RoomAfterFinishChained(h.rooms, h.tasks[id]);
      case Inspect(id, approved, reason) => InspectChained(h, id, approved, reason);
      case _ =>
    }
  }

  lemma ExecKeepsRooms(h: Hotel, c: Call)
    requires RoomsInv(h.rooms)
    ensures RoomsInv(Step(h, c).rooms)
    ensures |h.rooms| <= |Step(h, c).rooms|
  {
    if Exec(h, c).Ok? {
      match c.op {
        case Tasks(op) => ExecTaskRooms(h, c.cat, c.at, op);
        case Rooms(op) =>
          match op {
            case ChangeStatus(id, to, reason, caller) =>
              ChangeRoomStatusChained(h, c.cat, id, to, reason, caller, c.at);
            case UpdateRoom(id, newType, active, scope) => EditRoomChained(h, c.cat, id, newType, active, scope);
            case NewRoom(_, _, _, _) =>
          }
        case _ =>
      }
    }
  }
}
