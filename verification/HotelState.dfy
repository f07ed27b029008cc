/** The tables of the hotel store. A row's key is its index in its table. */
module HotelState {
  import opened Common
  import opened Catalog
  import opened Ledger

  // ----- counts -----

  datatype StocktakeStatus = CountDraft | Counting | CountPending | CountApplied | CountCancelled

  datatype CountLine = CountLine(product: Id, location: Id, systemQty: int, countedQty: Option<int>)

  datatype Stocktake = Stocktake(
    warehouse: Id, status: StocktakeStatus, snapshotAt: Option<int>, closedBy: Option<Id>, lines: seq<CountLine>)

  // ----- tasks -----

  datatype CleaningType = Checkout | Stay | Turndown

  datatype TaskStatus = TaskPending | TaskInProgress | TaskFinished | TaskCancelled

  datatype LineSource = Kit | Extra

  datatype TaskLine = TaskLine(product: Id, quantity: int, source: LineSource)

  datatype Task = Task(
    room: Id, cleaning: CleaningType, status: TaskStatus, assignee: Option<Id>, cart: Option<Id>,
    requiresInspection: bool, isRework: bool, kitAlert: bool, inspected: bool, finishedAt: Option<int>,
    movement: Option<Id>, linenMovement: Option<Id>, lines: seq<TaskLine>)

  // ----- rooms -----

  /** One row of a room's history; only the first has no previous status. */
  datatype StatusChange = StatusChange(from: Option<RoomStatus>, to: RoomStatus)

  datatype Room = Room(zone: Id, roomType: Id, active: bool, status: RoomStatus, history: seq<StatusChange>)

  datatype Hotel = Hotel(ledger: Ledger, stocktakes: seq<Stocktake>, tasks: seq<Task>, rooms: seq<Room>)
}
