/** Posting, approving, rejecting and cancelling movements, and what keeps stock and ledger in step. */
module Ledger {
  import opened Common
  import opened Stock
  import opened Kardex
  import opened Catalog

  datatype Ledger = Ledger(stock: seq<Row>, movements: seq<Movement>)

  // ----- posting -----

  function ResolveLine(cat: Catalog, i: MovementInput, line: LineInput): Result<Line> {
    if line.product !in cat.products then Err(ProductNotFound)
    else if !cat.products[line.product].active then Err(ProductInactive)
    else if cat.products[line.product].whole && line.quantity % UNIT != 0 then Err(QuantityNotWhole)
    else
      var d := LedgerDeltas(i.kind);
      var from :- if d.source != 0 then GivenLocation(cat, i.source, line.fromLocation) else Ok(None);
      var to :- if d.target != 0 then GivenLocation(cat, i.target, line.toLocation) else Ok(None);
      if i.kind == Transfer && i.source == i.target && from == to then Err(TransferSameLocation)
      else if i.kind == Inbound && line.unitCost.None? then Err(UnitCostRequired)
      else
        var cost := if line.unitCost.Some? then line.unitCost else cat.products[line.product].lastCost;
        Ok(Line(line.product, line.quantity, cost, from, to))
  }

  function GivenLocation(cat: Catalog, warehouse: Option<Id>, location: Option<Id>): Result<Option<Id>> {
    if warehouse.None? then Err(LocationNotInWarehouse)
    else
      var id :- LocationOf(cat, warehouse.value, location);
      Ok(Some(id))
  }

  function ResolveLines(cat: Catalog, i: MovementInput, lines: seq<LineInput>): Result<seq<Line>> {
    if lines == [] then Ok([])
    else
      var first :- ResolveLine(cat, i, lines[0]);
      var rest :- ResolveLines(cat, i, lines[1..]);
      Ok([first] + rest)
  }

  function SumQuantity(lines: seq<Line>): int {
    if lines == [] then 0 else lines[0].quantity + SumQuantity(lines[1..])
  }

  function SumCost(lines: seq<Line>): int {
    if lines == [] then 0
    else lines[0].quantity * (if lines[0].unitCost.Some? then lines[0].unitCost.value else 0) + SumCost(lines[1..])
  }

  function InitialStatus(cat: Catalog, i: MovementInput, lines: seq<Line>): MovementStatus {
    if (i.kind == AdjustIn || i.kind == AdjustOut) && !i.skipApproval
       && NeedsApproval(SumQuantity(lines), SumCost(lines), cat.thresholds)
    then PendingApproval else Active
  }

  /** The movement a request asks for, before stock is looked at. */
  function Draft(cat: Catalog, i: MovementInput, requestId: Option<Id>, at: int): Result<Movement> {
    var lines :- ResolveLines(cat, i, i.lines);
    var status := InitialStatus(cat, i, lines);
    Ok(Movement(i.kind, status, i.source, i.target, i.room, i.reason, requestId, i.stocktake, at, lines))
  }

  function ApplyInTransaction(l: Ledger, cat: Catalog, i: MovementInput, requestId: Option<Id>, at: int): Result<Ledger>
  {
    var m :- Draft(cat, i, requestId, at);
    var stock :- if m.status == Active then ApplyMoves(l.stock, MovesOf(m)) else Ok(l.stock);
    Ok(Ledger(stock, l.movements + [m]))
  }

  predicate IsApiType(kind: MovementType) {
    kind != RoomConsumption && kind != LinenExchange
  }

  /** The movement a request key is recorded on, if any. */
  function ByRequest(movements: seq<Movement>, requestId: Id): Option<Id> {
    if movements == [] then None
    else if movements[|movements| - 1].requestId == Some(requestId) then Some(|movements| - 1)
    else ByRequest(movements[..|movements| - 1], requestId)
  }

  datatype Posted = Posted(ledger: Ledger, id: Id)

  function Post(l: Ledger, cat: Catalog, i: MovementInput, requestId: Option<Id>, at: int): Result<Posted> {
    if !IsApiType(i.kind) then Err(MovementTypeNotSupported)
    else if requestId.Some? && ByRequest(l.movements, requestId.value).Some? then
      Ok(Posted(l, ByRequest(l.movements, requestId.value).value))
    else if MovementShapeError(i).Some? then Err(MovementShapeError(i).value)
    else
      var l' :- ApplyInTransaction(l, cat, i, requestId, at);
      Ok(Posted(l', |l.movements|))
  }

  // ----- the life of a posted movement -----

  function SetStatus(l: Ledger, id: Id, stock: seq<Row>, status: MovementStatus): Ledger
    requires id < |l.movements|
  {
    Ledger(stock, l.movements[id := l.movements[id].(status := status)])
  }

  /** Cancels an active movement by applying the opposite signs; stock must cover the reversal. */
  function Cancel(l: Ledger, id: Id): Result<Ledger> {
    if id >= |l.movements| then Err(MovementNotFound)
    else if l.movements[id].status != Active then Err(MovementNotActive)
    else if !IsCancellable(l.movements[id].kind) then Err(MovementNotCancellable)
    else
      var stock :- ApplyMoves(l.stock, Negate(MovesOf(l.movements[id])));
      Ok(SetStatus(l, id, stock, Cancelled))
  }

  function PendingError(l: Ledger, id: Id): Option<Error> {
    if id >= |l.movements| then Some(MovementNotFound)
    else if l.movements[id].status != PendingApproval then Some(MovementNotPending)
    else None
  }

  function Approve(l: Ledger, id: Id): Result<Ledger> {
    if PendingError(l, id).Some? then Err(PendingError(l, id).value)
    else
      var stock :- ApplyMoves(l.stock, MovesOf(l.movements[id]));
      Ok(SetStatus(l, id, stock, Active))
  }

  function Reject(l: Ledger, id: Id): Result<Ledger> {
    if PendingError(l, id).Some? then Err(PendingError(l, id).value)
    else Ok(SetStatus(l, id, l.stock, Cancelled))
  }

  // ----- invariant -----

  function Contribution(m: Movement, p: Pos): int {
    if m.status == Active then Net(MovesOf(m), p) else 0
  }

  /** Signed sum of the lines of the active movements at one position. */
  function ActiveNet(movements: seq<Movement>, p: Pos): int {
    if movements == [] then 0 else Contribution(movements[0], p) + ActiveNet(movements[1..], p)
  }

  function ProductContribution(m: Movement, product: Id): int {
    if m.status == Active then NetProduct(MovesOf(m), product) else 0
  }

  /** What the active movements brought into the hotel minus what they took out of it. */
  function ActiveTotal(movements: seq<Movement>, product: Id): int {
    if movements == [] then 0 else ProductContribution(movements[0], product) + ActiveTotal(movements[1..], product)
  }

  predicate WellFormedLine(m: Movement, l: Line) {
    && l.quantity > 0
    && (l.fromLocation.Some? <==> LedgerDeltas(m.kind).source != 0)
    && (l.toLocation.Some? <==> LedgerDeltas(m.kind).target != 0)
    && (m.kind == Transfer && m.source == m.target ==> l.fromLocation != l.toLocation)
  }

  ghost predicate WellFormed(m: Movement) {
    && m.lines != []
    && (forall i :: 0 <= i < |m.lines| ==> WellFormedLine(m, m.lines[i]))
    && (m.source.Some? <==> LedgerDeltas(m.kind).source != 0)
    && (m.target.Some? <==> LedgerDeltas(m.kind).target != 0)
    && (m.status == PendingApproval ==> m.kind == AdjustIn || m.kind == AdjustOut)
    && (!IsCancellable(m.kind) ==> m.status == Active)
  }

  /** Stock is the signed sum of the active movements, at each position and hotel-wide. */
  ghost predicate InStep(l: Ledger) {
    && (forall p :: Qty(l.stock, p) == ActiveNet(l.movements, p))
    && (forall product :: Total(l.stock, product) == ActiveTotal(l.movements, product))
  }

  ghost predicate KeysUnique(movements: seq<Movement>) {
    forall i, j :: 0 <= i < j < |movements| && movements[i].requestId.Some?
      ==> movements[i].requestId != movements[j].requestId
  }

  ghost predicate LedgerInv(l: Ledger, clock: int) {
    && Unique(l.stock) && NonNegative(l.stock)
    && InStep(l)
    && KeysUnique(l.movements)
    && (forall i :: 0 <= i < |l.movements| ==> WellFormed(l.movements[i]) && l.movements[i].createdAt <= clock)
  }

  lemma {:induction false} ActiveNetSplit(a: seq<Movement>, b: seq<Movement>, p: Pos)
    ensures ActiveNet(a + b, p) == ActiveNet(a, p) + ActiveNet(b, p)
  {
    if a == [] {
      assert a + b == b;
    } else {
      ActiveNetSplit(a[1..], b, p);
      assert (a + b)[1..] == a[1..] + b;
    }
  }

  lemma {:induction false} ActiveTotalSplit(a: seq<Movement>, b: seq<Movement>, product: Id)
    ensures ActiveTotal(a + b, product) == ActiveTotal(a, product) + ActiveTotal(b, product)
  {
    if a == [] {
      assert a + b == b;
    } else {
      ActiveTotalSplit(a[1..], b, product);
      assert (a + b)[1..] == a[1..] + b;
    }
  }

  lemma ActiveNetAt(movements: seq<Movement>, id: nat, p: Pos)
    requires id < |movements|
    ensures ActiveNet(movements, p)
         == ActiveNet(movements[..id], p) + Contribution(movements[id], p) + ActiveNet(movements[id + 1..], p)
  {
    assert movements == movements[..id] + ([movements[id]] + movements[id + 1..]);
    ActiveNetSplit(movements[..id], [movements[id]] + movements[id + 1..], p);
    assert ([movements[id]] + movements[id + 1..])[1..] == movements[id + 1..];
  }

  lemma ActiveTotalAt(movements: seq<Movement>, id: nat, product: Id)
    requires id < |movements|
    ensures ActiveTotal(movements, product)
         == ActiveTotal(movements[..id], product) + ProductContribution(movements[id], product)
          + ActiveTotal(movements[id + 1..], product)
  {
    assert movements == movements[..id] + ([movements[id]] + movements[id + 1..]);
    ActiveTotalSplit(movements[..id], [movements[id]] + movements[id + 1..], product);
    assert ([movements[id]] + movements[id + 1..])[1..] == movements[id + 1..];
  }

  lemma {:induction false} StatusKeepsMoves(m: Movement, status: MovementStatus, lines: seq<Line>)
    ensures MovesOfLines(m.(status := status), lines) == MovesOfLines(m, lines)
  {
    if lines != [] {
      StatusKeepsMoves(m, status, lines[1..]);
    }
  }

  /** Changing one movement's status together with applying its moves, or their opposites, keeps step. */
  lemma StatusChangeInStep(l: Ledger, id: Id, moves: seq<Move>, status: MovementStatus)
    requires id < |l.movements| && InStep(l) && ApplyMoves(l.stock, moves).Ok?
    requires forall p :: Net(moves, p)
               == Contribution(l.movements[id].(status := status), p) - Contribution(l.movements[id], p)
    requires forall product :: NetProduct(moves, product)
               == ProductContribution(l.movements[id].(status := status), product)
                  - ProductContribution(l.movements[id], product)
    ensures InStep(SetStatus(l, id, ApplyMoves(l.stock, moves).value, status))
  {
    ApplyMovesNet(l.stock, moves);
    var l' := SetStatus(l, id, ApplyMoves(l.stock, moves).value, status);
    assert l'.movements[..id] == l.movements[..id] && l'.movements[id + 1..] == l.movements[id + 1..];
    forall p ensures Qty(l'.stock, p) == ActiveNet(l'.movements, p) {
      ActiveNetAt(l.movements, id, p);
      ActiveNetAt(l'.movements, id, p);
    }
    forall product ensures Total(l'.stock, product) == ActiveTotal(l'.movements, product) {
      ActiveTotalAt(l.movements, id, product);
      ActiveTotalAt(l'.movements, id, product);
    }
  }

  lemma AppendInStep(l: Ledger, m: Movement, moves: seq<Move>)
    requires InStep(l) && ApplyMoves(l.stock, moves).Ok?
    requires moves == if m.status == Active then MovesOf(m) else []
    ensures InStep(Ledger(ApplyMoves(l.stock, moves).value, l.movements + [m]))
  {
    ApplyMovesNet(l.stock, moves);
    forall p ensures ActiveNet(l.movements + [m], p) == ActiveNet(l.movements, p) + Net(moves, p) {
      ActiveNetSplit(l.movements, [m], p);
    }
    forall product
      ensures ActiveTotal(l.movements + [m], product) == ActiveTotal(l.movements, product) + NetProduct(moves, product)
    {
      ActiveTotalSplit(l.movements, [m], product);
    }
  }

  // ----- requests become well-formed movements -----

  lemma {:induction false} ResolvedLines(cat: Catalog, i: MovementInput, lines: seq<LineInput>)
    requires ResolveLines(cat, i, lines).Ok? && PositiveQuantities(lines)
    ensures var ls := ResolveLines(cat, i, lines).value;
      && |ls| == |lines|
      && forall k :: 0 <= k < |ls| ==>
           && ls[k].product == lines[k].product && ls[k].quantity == lines[k].quantity > 0
           && (ls[k].fromLocation.Some? <==> LedgerDeltas(i.kind).source != 0)
           && (ls[k].toLocation.Some? <==> LedgerDeltas(i.kind).target != 0)
           && (LedgerDeltas(i.kind).source != 0 && lines[k].fromLocation.Some?
               ==> ls[k].fromLocation == lines[k].fromLocation)
           && (LedgerDeltas(i.kind).target != 0 && lines[k].toLocation.Some?
               ==> ls[k].toLocation == lines[k].toLocation)
           && (i.kind == Transfer && i.source == i.target ==> ls[k].fromLocation != ls[k].toLocation)
  {
    if lines != [] {
      ResolvedLines(cat, i, lines[1..]);
    }
  }

  lemma DraftWellFormed(cat: Catalog, i: MovementInput, requestId: Option<Id>, at: int)
    requires MovementShapeError(i).None? && Draft(cat, i, requestId, at).Ok?
    ensures WellFormed(Draft(cat, i, requestId, at).value)
  {
    ResolvedLines(cat, i, i.lines);
  }

  lemma {:induction false} ByRequestFinds(movements: seq<Movement>, requestId: Id)
    ensures match ByRequest(movements, requestId)
      case Some(id) => id < |movements| && movements[id].requestId == Some(requestId)
      case None => forall i :: 0 <= i < |movements| ==> movements[i].requestId != Some(requestId)
  {
    if movements != [] {
      ByRequestFinds(movements[..|movements| - 1], requestId);
    }
  }

  // ----- every operation keeps the invariant -----

  lemma AppendKeeps(l: Ledger, m: Movement, clock: int)
    requires LedgerInv(l, clock) && clock <= m.createdAt && WellFormed(m)
    requires m.requestId.Some? ==> ByRequest(l.movements, m.requestId.value).None?
    requires m.status == Active ==> ApplyMoves(l.stock, MovesOf(m)).Ok?
    ensures LedgerInv(Ledger(if m.status == Active then ApplyMoves(l.stock, MovesOf(m)).value else l.stock,
                             l.movements + [m]), m.createdAt)
  {
    var moves := if m.status == Active then MovesOf(m) else [];
    ApplyMovesSafe(l.stock, moves);
    AppendInStep(l, m, moves);
    if m.requestId.Some? {
      ByRequestFinds(l.movements, m.requestId.value);
    }
  }

  lemma ApplyInTransactionKeeps(l: Ledger, cat: Catalog, i: MovementInput, requestId: Option<Id>, at: int, clock: int)
    requires LedgerInv(l, clock) && clock <= at
    requires MovementShapeError(i).None?
    requires requestId.Some? ==> ByRequest(l.movements, requestId.value).None?
    requires ApplyInTransaction(l, cat, i, requestId, at).Ok?
    ensures LedgerInv(ApplyInTransaction(l, cat, i, requestId, at).value, at)
  {
    DraftWellFormed(cat, i, requestId, at);
    AppendKeeps(l, Draft(cat, i, requestId, at).value, clock);
  }

  lemma PostKeeps(l: Ledger, cat: Catalog, i: MovementInput, requestId: Option<Id>, at: int, clock: int)
    requires LedgerInv(l, clock) && clock <= at
    requires Post(l, cat, i, requestId, at).Ok?
    ensures LedgerInv(Post(l, cat, i, requestId, at).value.ledger, at)
  {
    if Post(l, cat, i, requestId, at).value.ledger != l {
      ApplyInTransactionKeeps(l, cat, i, requestId, at, clock);
    }
  }

  lemma CancelKeeps(l: Ledger, id: Id, clock: int)
    requires LedgerInv(l, clock) && Cancel(l, id).Ok?
    ensures LedgerInv(Cancel(l, id).value, clock)
  {
    var moves := Negate(MovesOf(l.movements[id]));
    NegateNet(MovesOf(l.movements[id]));
    ApplyMovesSafe(l.stock, moves);
    StatusChangeInStep(l, id, moves, Cancelled);
  }

  lemma ApproveKeeps(l: Ledger, id: Id, clock: int)
    requires LedgerInv(l, clock) && Approve(l, id).Ok?
    ensures LedgerInv(Approve(l, id).value, clock)
  {
    var moves := MovesOf(l.movements[id]);
    StatusKeepsMoves(l.movements[id], Active, l.movements[id].lines);
    ApplyMovesSafe(l.stock, moves);
    StatusChangeInStep(l, id, moves, Active);
  }

  lemma RejectKeeps(l: Ledger, id: Id, clock: int)
    requires LedgerInv(l, clock) && Reject(l, id).Ok?
    ensures LedgerInv(Reject(l, id).value, clock)
  {
    StatusChangeInStep(l, id, [], Cancelled);
  }
}
