/** The hotel store as one machine: each service call is an atomic step, and a refused call changes nothing. */
module HotelRuns {
  import opened Common
  import opened Kardex
  import opened Catalog
  import opened Ledger
  import opened HotelState
  import opened Stocktakes
  import opened Housekeeping

  datatype MovementOp =
    | PostMovement(input: MovementInput, requestId: Option<Id>)
    | ApproveMovement(id: Id)
    | RejectMovement(id: Id)
    | CancelMovement(id: Id)

  datatype CountOp =
    | OpenCount(warehouse: Id)
    | StartCount(id: Id)
    | CaptureCounts(id: Id, counts: seq<CountInput>)
    | CloseCount(id: Id, actor: Id)
    | ApproveTheCount(id: Id, actor: Id, canApproveOwnClose: bool)
    | CancelTheCount(id: Id)

  datatype TaskOp =
    | OpenTask(room: Id, cleaning: CleaningType)
    | Assign(id: Id, assignee: Id)
    | Begin(id: Id)
    | Extras(id: Id, product: Id, quantity: int)
    | Finish(id: Id, actor: Id, canManage: bool)
    | DropTask(id: Id)
    | Inspect(id: Id, approved: bool, reason: Option<Id>)

  datatype RoomOp =
    | NewRoom(zone: Id, roomType: Id, available: bool, scope: Scope)
    | ChangeStatus(id: Id, to: RoomStatus, reason: Option<Id>, caller: Caller)
    | UpdateRoom(id: Id, newType: Option<Id>, active: Option<bool>, scope: Scope)

  datatype Op = Movements(m: MovementOp) | Counts(c: CountOp) | Tasks(t: TaskOp) | Rooms(r: RoomOp)

  /** A call with the time it commits at and the catalog it reads. */
  datatype Call = Call(at: int, cat: Catalog, op: Op)

  function ExecMovement(l: Ledger, cat: Catalog, at: int, op: MovementOp): Result<Ledger> {
    match op
    case PostMovement(i, requestId) =>
      var posted :- Post(l, cat, i, requestId, at);
      Ok(posted.ledger)
    case ApproveMovement(id) => Approve(l, id)
    case RejectMovement(id) => Reject(l, id)
    case CancelMovement(id) => Cancel(l, id)
  }

  function ExecCount(h: Hotel, cat: Catalog, at: int, op: CountOp): Result<Hotel> {
    match op
    case OpenCount(w) => CreateStocktake(h, cat, w)
    case StartCount(id) => StartStocktake(h, id, at)
    case CaptureCounts(id, counts) => CaptureStocktake(h, cat, id, counts)
    case CloseCount(id, actor) => CloseStocktake(h, id, actor)
    case ApproveTheCount(id, actor, own) => ApproveStocktake(h, cat, id, actor, own, at)
    case CancelTheCount(id) => CancelStocktake(h, id)
  }

  ghost function ExecTask(h: Hotel, cat: Catalog, at: int, op: TaskOp): Result<Hotel> {
    match op
    case OpenTask(room, cleaning) => CreateTask(h, cat, room, cleaning, at)
    case Assign(id, assignee) => AssignTask(h, cat, id, assignee)
    case Begin(id) => StartTask(h, cat, id)
    case Extras(id, product, quantity) => AddExtra(h, cat, id, product, quantity)
    case Finish(id, actor, canManage) => FinishTask(h, cat, id, actor, canManage, at)
    case DropTask(id) => CancelTask(h, id)
    case Inspect(id, approved, reason) => InspectTask(h, id, approved, reason)
  }

  ghost function ExecRoom(h: Hotel, cat: Catalog, at: int, op: RoomOp): Result<Hotel> {
    match op
    case NewRoom(zone, roomType, available, scope) => CreateRoom(h, cat, zone, roomType, available, scope)
    case ChangeStatus(id, to, reason, caller) => ChangeRoomStatus(h, cat, id, to, reason, caller, at)
    case UpdateRoom(id, newType, active, scope) => EditRoom(h, cat, id, newType, active, scope)
  }

  ghost function Exec(h: Hotel, c: Call): Result<Hotel> {
    match c.op
    case Movements(m) =>
      var l :- ExecMovement(h.ledger, c.cat, c.at, m);
      Ok(h.(ledger := l))
    case Counts(op) => ExecCount(h, c.cat, c.at, op)
    case Tasks(op) => ExecTask(h, c.cat, c.at, op)
    case Rooms(op) => ExecRoom(h, c.cat, c.at, op)
  }

  /** A call that throws rolls back. */
  ghost function Step(h: Hotel, c: Call): Hotel {
    match Exec(h, c)
    case Ok(h') => h'
    case Err(_) => h
  }

  ghost function Run(h: Hotel, calls: seq<Call>): Hotel
    decreases |calls|
  {
    if calls == [] then h else Run(Step(h, calls[0]), calls[1..])
  }

  /** Calls commit one after the other, each later than the one before. */
  ghost predicate InOrder(clock: int, calls: seq<Call>)
    decreases |calls|
  {
    calls == [] || (clock < calls[0].at && InOrder(calls[0].at, calls[1..]))
  }

  function ClockAfter(clock: int, calls: seq<Call>): int {
    if calls == [] then clock else calls[|calls| - 1].at
  }

  const EMPTY := Hotel(Ledger([], []), [], [], [])
}
