/**
 * Physical counts. Nothing locks the warehouse: starting takes a photo of its stock, and approving
 * posts, for each line, counted minus photo minus the movements posted after the photo.
 */
module Stocktakes {
  import opened Common
  import opened Stock
  import opened Kardex
  import opened Catalog
  import opened Ledger
  import opened HotelState

  datatype CountAction = Start | Close | ApproveCount | CancelCount

  function NextStatus(current: StocktakeStatus, action: CountAction): Result<StocktakeStatus> {
    match action
    case Start => if current == CountDraft then Ok(Counting) else Err(StocktakeInvalidState)
    case Close => if current == Counting then Ok(CountPending) else Err(StocktakeInvalidState)
    case ApproveCount => if current == CountPending then Ok(CountApplied) else Err(StocktakeInvalidState)
    case CancelCount => if IsOpen(current) then Ok(CountCancelled) else Err(StocktakeInvalidState)
  }

  predicate IsOpen(s: StocktakeStatus) {
    s == CountDraft || s == Counting || s == CountPending
  }

  predicate HasOpen(stocktakes: seq<Stocktake>, warehouse: Id) {
    exists i :: 0 <= i < |stocktakes| && stocktakes[i].warehouse == warehouse && IsOpen(stocktakes[i].status)
  }

  predicate ActiveWarehouse(warehouses: seq<Warehouse>, id: Id) {
    exists i :: 0 <= i < |warehouses| && warehouses[i].id == id && warehouses[i].active
  }

  function CreateStocktake(h: Hotel, cat: Catalog, warehouse: Id): Result<Hotel> {
    if !ActiveWarehouse(cat.warehouses, warehouse) then Err(WarehouseNotFound)
    else if HasOpen(h.stocktakes, warehouse) then Err(StocktakeOpenExists)
    else Ok(h.(stocktakes := h.stocktakes + [Stocktake(warehouse, CountDraft, None, None, [])]))
  }

  /** The photo: one line for each row of the warehouse with stock. */
  function PhotoLines(rows: seq<Row>, warehouse: Id): seq<CountLine> {
    if rows == [] then []
    else if rows[0].pos.warehouse == warehouse && rows[0].quantity > 0 then
      [CountLine(rows[0].pos.product, rows[0].pos.location, rows[0].quantity, None)] + PhotoLines(rows[1..], warehouse)
    else PhotoLines(rows[1..], warehouse)
  }

  function SetStocktake(h: Hotel, id: Id, st: Stocktake): Hotel
    requires id < |h.stocktakes|
  {
    h.(stocktakes := h.stocktakes[id := st])
  }

  function StartStocktake(h: Hotel, id: Id, at: int): Result<Hotel> {
    if id >= |h.stocktakes| then Err(StocktakeNotFound)
    else
      var st := h.stocktakes[id];
      var next :- NextStatus(st.status, Start);
      Ok(SetStocktake(h, id, st.(status := next, snapshotAt := Some(at),
                                 lines := st.lines + PhotoLines(h.ledger.stock, st.warehouse))))
  }

  datatype CountInput = CountInput(product: Id, location: Id, countedQty: int)

  /** Records a count on the line of its product and location; without one, the line starts at zero. */
  function SetCount(lines: seq<CountLine>, c: CountInput): seq<CountLine> {
    if lines == [] then [CountLine(c.product, c.location, 0, Some(c.countedQty))]
    else if lines[0].product == c.product && lines[0].location == c.location then
      [lines[0].(countedQty := Some(c.countedQty))] + lines[1..]
    else [lines[0]] + SetCount(lines[1..], c)
  }

  function CaptureLines(cat: Catalog, warehouse: Id, lines: seq<CountLine>,
                        counts: seq<CountInput>): Result<seq<CountLine>>
    decreases |counts|
  {
    if counts == [] then Ok(lines)
    else if counts[0].countedQty < 0 then Err(CountQuantityInvalid)
    else if !HasLocation(cat.locations, counts[0].location, warehouse) then Err(LocationNotInWarehouse)
    else CaptureLines(cat, warehouse, SetCount(lines, counts[0]), counts[1..])
  }

  function CaptureStocktake(h: Hotel, cat: Catalog, id: Id, counts: seq<CountInput>): Result<Hotel> {
    if id >= |h.stocktakes| then Err(StocktakeNotFound)
    else if h.stocktakes[id].status != Counting then Err(StocktakeInvalidState)
    else
      var lines :- CaptureLines(cat, h.stocktakes[id].warehouse, h.stocktakes[id].lines, counts);
      Ok(SetStocktake(h, id, h.stocktakes[id].(lines := lines)))
  }

  predicate AllCounted(lines: seq<CountLine>) {
    forall k :: 0 <= k < |lines| ==> lines[k].countedQty.Some?
  }

  function CloseStocktake(h: Hotel, id: Id, actor: Id): Result<Hotel> {
    if id >= |h.stocktakes| then Err(StocktakeNotFound)
    else
      var st := h.stocktakes[id];
      var next :- NextStatus(st.status, Close);
      if !AllCounted(st.lines) then Err(StocktakeLinesUncounted)
      else Ok(SetStocktake(h, id, st.(status := next, closedBy := Some(actor))))
  }

  function CancelStocktake(h: Hotel, id: Id): Result<Hotel> {
    if id >= |h.stocktakes| then Err(StocktakeNotFound)
    else
      var next :- NextStatus(h.stocktakes[id].status, CancelCount);
      Ok(SetStocktake(h, id, h.stocktakes[id].(status := next)))
  }

  // ----- approval -----

  predicate CountsAsSince(m: Movement, warehouse: Id, snapshotAt: int) {
    m.status == Active && m.createdAt > snapshotAt && (m.target == Some(warehouse) || m.source == Some(warehouse))
  }

  /** The active movements of the warehouse posted after the photo. */
  function Since(movements: seq<Movement>, warehouse: Id, snapshotAt: int): seq<Movement> {
    if movements == [] then []
    else if CountsAsSince(movements[0], warehouse, snapshotAt) then
      [movements[0]] + Since(movements[1..], warehouse, snapshotAt)
    else Since(movements[1..], warehouse, snapshotAt)
  }

  function CountDifference(counted: int, systemQty: int, movementsSincePhoto: int): int {
    counted - systemQty - movementsSincePhoto
  }

  function CountedOf(line: CountLine): int {
    if line.countedQty.Some? then line.countedQty.value else 0
  }

  function PosOf(warehouse: Id, line: CountLine): Pos {
    Pos(line.product, warehouse, line.location)
  }

  function DifferenceOf(warehouse: Id, since: seq<Movement>, line: CountLine): int {
    CountDifference(CountedOf(line), line.systemQty, LedgerNet(since, PosOf(warehouse, line)))
  }

  datatype Adjustment = Adjustment(line: CountLine, difference: int)

  /** The lines whose count differs, each with its difference. */
  function Adjustments(warehouse: Id, since: seq<Movement>, lines: seq<CountLine>): seq<Adjustment> {
    if lines == [] then []
    else if DifferenceOf(warehouse, since, lines[0]) != 0 then
      [Adjustment(lines[0], DifferenceOf(warehouse, since, lines[0]))] + Adjustments(warehouse, since, lines[1..])
    else Adjustments(warehouse, since, lines[1..])
  }

  function Upward(adjustments: seq<Adjustment>): seq<Adjustment> {
    if adjustments == [] then []
    else if adjustments[0].difference > 0 then [adjustments[0]] + Upward(adjustments[1..])
    else Upward(adjustments[1..])
  }

  function Downward(adjustments: seq<Adjustment>): seq<Adjustment> {
    if adjustments == [] then []
    else if adjustments[0].difference < 0 then [adjustments[0]] + Downward(adjustments[1..])
    else Downward(adjustments[1..])
  }

  function Abs(x: int): int {
    if x < 0 then -x else x
  }

  function AdjustmentLines(kind: MovementType, rows: seq<Adjustment>): seq<LineInput> {
    if rows == [] then []
    else
      var at := Some(rows[0].line.location);
      [LineInput(rows[0].line.product, Abs(rows[0].difference), None,
                 if kind == AdjustOut then at else None, if kind == AdjustIn then at else None)]
      + AdjustmentLines(kind, rows[1..])
  }

  function AdjustmentInput(kind: MovementType, warehouse: Id, reason: Id, id: Id, rows: seq<Adjustment>): MovementInput
  {
    MovementInput(kind, if kind == AdjustOut then Some(warehouse) else None,
                  if kind == AdjustIn then Some(warehouse) else None, None, Some(reason), Some(id), true,
                  AdjustmentLines(kind, rows))
  }

  /** Posts one adjustment movement for the given rows; nothing when there are none. */
  function PostAdjustment(l: Ledger, cat: Catalog, kind: MovementType, warehouse: Id, reason: Id, id: Id,
                          rows: seq<Adjustment>, at: int): Result<Ledger>
  {
    if rows == [] then Ok(l)
    else
      var input := AdjustmentInput(kind, warehouse, reason, id, rows);
      if MovementShapeError(input).Some? then Err(MovementShapeError(input).value)
      else ApplyInTransaction(l, cat, input, None, at)
  }

  /** Both adjustments of a count, inbound first. */
  function PostAdjustments(l: Ledger, cat: Catalog, warehouse: Id, id: Id, rows: seq<Adjustment>,
                           at: int): Result<Ledger>
  {
    if Upward(rows) == [] && Downward(rows) == [] then Ok(l)
    else if cat.countReason.None? then Err(StocktakeReasonMissing)
    else
      var l1 :- PostAdjustment(l, cat, AdjustIn, warehouse, cat.countReason.value, id, Upward(rows), at);
      PostAdjustment(l1, cat, AdjustOut, warehouse, cat.countReason.value, id, Downward(rows), at)
  }

  function ApproveStocktake(h: Hotel, cat: Catalog, id: Id, actor: Id, canApproveOwnClose: bool, at: int): Result<Hotel>
  {
    if id >= |h.stocktakes| then Err(StocktakeNotFound)
    else
      var st := h.stocktakes[id];
      var next :- NextStatus(st.status, ApproveCount);
      if st.closedBy == Some(actor) && !canApproveOwnClose then Err(SelfApproval)
      else if st.snapshotAt.None? then Err(StocktakeInvalidState)
      else
        var since := Since(h.ledger.movements, st.warehouse, st.snapshotAt.value);
        var l :- PostAdjustments(h.ledger, cat, st.warehouse, id, Adjustments(st.warehouse, since, st.lines), at);
        Ok(SetStocktake(h.(ledger := l), id, st.(status := next)))
  }
}
