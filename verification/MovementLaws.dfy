/**
 * What each type of movement asks for and does to stock, with the types named, and what becomes of a movement
 * that waits for approval.
 */
module MovementLaws {
  import opened Common
  import opened Stock
  import opened Kardex
  import opened Catalog
  import opened Ledger
  import opened LedgerLaws
  import opened HotelState
  import opened Stocktakes
  import opened StocktakeLaws
  import opened Housekeeping
  import opened HotelRuns
  import opened TaskLaws
  import opened RunLaws

  predicate Leaves(kind: MovementType) {
    || kind == Transfer || kind == LinenExchange
    || kind == RoomConsumption || kind == AdjustOut || kind == WriteOff
  }

  predicate Enters(kind: MovementType) {
    || kind == InitialLoad || kind == Inbound || kind == AdjustIn
    || kind == Transfer || kind == LinenExchange
  }

  // ----- the shape of a request -----

  /** What a request of each type must carry, and must not. */
  predicate WellShaped(i: MovementInput) {
    match i.kind
    case InitialLoad | Inbound => i.source.None? && i.target.Some?
    case AdjustIn => i.source.None? && i.target.Some? && i.reason.Some?
    case AdjustOut | WriteOff => i.source.Some? && i.target.None? && i.reason.Some?
    case RoomConsumption => i.source.Some? && i.target.None? && i.room.Some?
    case Transfer => i.source.Some? && i.target.Some?
    case LinenExchange => i.source.Some? && i.target.Some? && i.room.Some?
  }

  lemma ShapeExactly(i: MovementInput)
    ensures MovementShapeError(i).None?
       <==> i.lines != [] && (forall k :: 0 <= k < |i.lines| ==> i.lines[k].quantity > 0) && WellShaped(i)
  {
  }

  // ----- the lines of a request -----

  /** The location given belongs to the warehouse and is active; without one, the warehouse has a default. */
  ghost predicate LocationKnown(cat: Catalog, warehouse: Id, given: Option<Id>) {
    exists k ::
      && 0 <= k < |cat.locations| && cat.locations[k].warehouse == warehouse && cat.locations[k].active
      && if given.Some? then cat.locations[k].id == given.value else cat.locations[k].isDefault
  }

  ghost predicate LineAccepted(cat: Catalog, i: MovementInput, line: LineInput) {
    && line.product in cat.products && cat.products[line.product].active
    && (cat.products[line.product].whole ==> line.quantity % UNIT == 0)
    && (Leaves(i.kind) ==> i.source.Some? && LocationKnown(cat, i.source.value, line.fromLocation))
    && (Enters(i.kind) ==> i.target.Some? && LocationKnown(cat, i.target.value, line.toLocation))
    && (i.kind == Transfer && i.source == i.target ==>
          LocationOf(cat, i.source.value, line.fromLocation) != LocationOf(cat, i.target.value, line.toLocation))
    && (i.kind == Inbound ==> line.unitCost.Some?)
  }

  /** `location` is the one given, or else a default of the warehouse; either way active and the warehouse's own. */
  ghost predicate LocationAnswers(cat: Catalog, warehouse: Id, given: Option<Id>, location: Id) {
    exists k ::
      && 0 <= k < |cat.locations| && cat.locations[k].id == location
      && cat.locations[k].warehouse == warehouse && cat.locations[k].active
      && if given.Some? then location == given.value else cat.locations[k].isDefault
  }

  /** The line of a movement that answers a line of its request. */
  ghost predicate LineAnswers(cat: Catalog, i: MovementInput, input: LineInput, line: Line) {
    && line.product == input.product && line.quantity == input.quantity
    && input.product in cat.products
    && line.unitCost == (if input.unitCost.Some? then input.unitCost else cat.products[input.product].lastCost)
    && (if Leaves(i.kind) then
          i.source.Some? && line.fromLocation.Some?
          && LocationAnswers(cat, i.source.value, input.fromLocation, line.fromLocation.value)
        else line.fromLocation.None?)
    && (if Enters(i.kind) then
          i.target.Some? && line.toLocation.Some?
          && LocationAnswers(cat, i.target.value, input.toLocation, line.toLocation.value)
        else line.toLocation.None?)
  }

  lemma {:induction false} DefaultIsKnown(locations: seq<Location>, warehouse: Id) returns (k: nat)
    ensures var first := FirstDefault(locations, warehouse);
      if first.Some? then
        k < |locations| && locations[k].id == first.value && locations[k].warehouse == warehouse
        && locations[k].active && locations[k].isDefault
      else
        forall j :: 0 <= j < |locations| && locations[j].warehouse == warehouse && locations[j].active ==>
          !locations[j].isDefault
  {
    k := 0;
    if locations != [] && FirstDefault(locations, warehouse) == FirstDefault(locations[1..], warehouse) {
      var j := DefaultIsKnown(locations[1..], warehouse);
      if !(locations[0].warehouse == warehouse && locations[0].isDefault && locations[0].active) {
        k := j + 1;
        assert forall j :: 0 < j < |locations| ==> locations[j] == locations[1..][j - 1];
      }
    }
  }

  lemma LocationOfAnswers(cat: Catalog, warehouse: Id, given: Option<Id>)
    ensures LocationOf(cat, warehouse, given).Ok? <==> LocationKnown(cat, warehouse, given)
    ensures LocationOf(cat, warehouse, given).Ok? ==>
              LocationAnswers(cat, warehouse, given, LocationOf(cat, warehouse, given).value)
  {
    if given.Some? {
      if HasLocation(cat.locations, given.value, warehouse) {
        var k :| 0 <= k < |cat.locations| && cat.locations[k].id == given.value
          && cat.locations[k].warehouse == warehouse && cat.locations[k].active;
        assert cat.locations[k].id == given.value;
      }
    } else {
      var k := DefaultIsKnown(cat.locations, warehouse);
    }
  }

  lemma LineExactly(cat: Catalog, i: MovementInput, line: LineInput)
    ensures ResolveLine(cat, i, line).Ok? <==> LineAccepted(cat, i, line)
    ensures ResolveLine(cat, i, line).Ok? ==> LineAnswers(cat, i, line, ResolveLine(cat, i, line).value)
  {
    if i.source.Some? {
      LocationOfAnswers(cat, i.source.value, line.fromLocation);
    }
    if i.target.Some? {
      LocationOfAnswers(cat, i.target.value, line.toLocation);
    }
  }

  /** All lines of a request are settled exactly when each could be, and each line answers its own. */
  lemma {:induction false} LinesExactly(cat: Catalog, i: MovementInput, lines: seq<LineInput>)
    ensures ResolveLines(cat, i, lines).Ok? <==> forall k :: 0 <= k < |lines| ==> LineAccepted(cat, i, lines[k])
    ensures ResolveLines(cat, i, lines).Ok? ==>
              && |ResolveLines(cat, i, lines).value| == |lines|
              && forall k :: 0 <= k < |lines| ==>
                   LineAnswers(cat, i, lines[k], ResolveLines(cat, i, lines).value[k])
  {
    if lines != [] {
      LineExactly(cat, i, lines[0]);
      LinesExactly(cat, i, lines[1..]);
      assert forall k :: 0 < k < |lines| ==> lines[k] == lines[1..][k - 1];
    }
  }

  // ----- what the lines do to stock -----

  /** Quantity of the lines that go into a position, and out of one. */
  function Into(m: Movement, lines: seq<Line>, p: Pos): int {
    if lines == [] then 0
    else
      (if m.target == Some(p.warehouse) && lines[0].product == p.product && lines[0].toLocation == Some(p.location)
       then lines[0].quantity else 0) + Into(m, lines[1..], p)
  }

  function OutOf(m: Movement, lines: seq<Line>, p: Pos): int {
    if lines == [] then 0
    else
      (if m.source == Some(p.warehouse) && lines[0].product == p.product && lines[0].fromLocation == Some(p.location)
       then lines[0].quantity else 0) + OutOf(m, lines[1..], p)
  }

  /** What a movement adds to a position: its lines into it, less its lines out of it, as its type has them. */
  function Adds(m: Movement, p: Pos): int {
    match m.kind
    case InitialLoad | Inbound | AdjustIn => Into(m, m.lines, p)
    case RoomConsumption | AdjustOut | WriteOff => -OutOf(m, m.lines, p)
    case Transfer | LinenExchange => Into(m, m.lines, p) - OutOf(m, m.lines, p)
  }

  lemma LineMoves(m: Movement, line: Line, p: Pos)
    ensures Net(TakeOut(m, line) + PutIn(m, line), p)
         == (if Enters(m.kind) then Into(m, [line], p) else 0) - (if Leaves(m.kind) then OutOf(m, [line], p) else 0)
  {
    NetSplit(TakeOut(m, line), PutIn(m, line), p);
    assert [line][1..] == [];
    if TakeOut(m, line) != [] {
      assert TakeOut(m, line)[1..] == [];
    }
    if PutIn(m, line) != [] {
      assert PutIn(m, line)[1..] == [];
    }
  }

  lemma SidesSplit(m: Movement, lines: seq<Line>, p: Pos)
    requires lines != []
    ensures Into(m, lines, p) == Into(m, [lines[0]], p) + Into(m, lines[1..], p)
    ensures OutOf(m, lines, p) == OutOf(m, [lines[0]], p) + OutOf(m, lines[1..], p)
  {
    assert [lines[0]][1..] == [];
  }

  lemma {:induction false} LinesMove(m: Movement, lines: seq<Line>, p: Pos)
    ensures Net(MovesOfLines(m, lines), p)
         == (if Enters(m.kind) then Into(m, lines, p) else 0) - (if Leaves(m.kind) then OutOf(m, lines, p) else 0)
  {
    if lines != [] {
      LinesMove(m, lines[1..], p);
      LineMoves(m, lines[0], p);
      SidesSplit(m, lines, p);
      NetSplit(TakeOut(m, lines[0]) + PutIn(m, lines[0]), MovesOfLines(m, lines[1..]), p);
    }
  }

  lemma MovesAdd(m: Movement, p: Pos)
    ensures Net(MovesOf(m), p) == Adds(m, p)
  {
    LinesMove(m, m.lines, p);
  }

  lemma MovesAddHotelWide(m: Movement, product: Id)
    requires WellFormed(m)
    ensures NetProduct(MovesOf(m), product) == HotelWideChange(m.kind, LineTotal(m.lines, product))
  {
    LinesProductTotal(m, m.lines, product);
  }

  /** The total of the lines is above a limit. */
  predicate AboveLimits(cat: Catalog, lines: seq<Line>) {
    SumQuantity(lines) > cat.thresholds.quantity || SumCost(lines) > cat.thresholds.cost
  }

  /** An adjustment waits for approval when its total is above a limit, unless its caller has approved it. */
  predicate Waits(cat: Catalog, i: MovementInput, lines: seq<Line>) {
    (i.kind == AdjustIn || i.kind == AdjustOut) && !i.skipApproval && AboveLimits(cat, lines)
  }

  /**
   * What posting a well-shaped request writes: one movement that carries the request, with a line that answers
   * each of its lines. It is pending, and stock is left alone, exactly when an adjustment is above a limit;
   * otherwise it is active and adds to each position what its type says.
   */
  lemma PostMoves(l: Ledger, clock: int, cat: Catalog, i: MovementInput, requestId: Option<Id>, at: int)
    requires LedgerInv(l, clock) && MovementShapeError(i).None? && ApplyInTransaction(l, cat, i, requestId, at).Ok?
    ensures var after := ApplyInTransaction(l, cat, i, requestId, at).value;
      && |after.movements| == |l.movements| + 1
      && var m := after.movements[|l.movements|];
      && after.movements == l.movements + [m]
      && m == Movement(i.kind, m.status, i.source, i.target, i.room, i.reason, requestId, i.stocktake, at, m.lines)
      && |m.lines| == |i.lines|
      && (forall k :: 0 <= k < |i.lines| ==> LineAnswers(cat, i, i.lines[k], m.lines[k]))
      && (if Waits(cat, i, m.lines) then m.status == PendingApproval && after.stock == l.stock
          else
            && m.status == Active
            && (forall p :: Qty(after.stock, p) == Qty(l.stock, p) + Adds(m, p))
            && forall product ::
                 Total(after.stock, product)
                 == Total(l.stock, product) + HotelWideChange(i.kind, LineTotal(m.lines, product)))
  {
    var m := Draft(cat, i, requestId, at).value;
    LinesExactly(cat, i, i.lines);
    DraftWellFormed(cat, i, requestId, at);
    if m.status == Active {
      ApplyMovesNet(l.stock, MovesOf(m));
      forall p {
        MovesAdd(m, p);
      }
      forall product {
        MovesAddHotelWide(m, product);
      }
    }
  }

  /** The movement a request becomes, when all its lines are accepted. */
  ghost predicate Drafts(cat: Catalog, i: MovementInput, requestId: Option<Id>, at: int, m: Movement) {
    && (forall k :: 0 <= k < |i.lines| ==> LineAccepted(cat, i, i.lines[k]))
    && Draft(cat, i, requestId, at) == Ok(m)
  }

  /** A request is accepted exactly when each of its lines is and stock covers its moves or it has to wait. */
  lemma PostAccepts(l: Ledger, cat: Catalog, i: MovementInput, requestId: Option<Id>, at: int)
    ensures ApplyInTransaction(l, cat, i, requestId, at).Ok?
       <==> exists m ::
              && Drafts(cat, i, requestId, at, m)
              && (Waits(cat, i, m.lines) || forall k :: 0 <= k < |MovesOf(m)| ==> Covered(l.stock, MovesOf(m), k))
  {
    LinesExactly(cat, i, i.lines);
    if Draft(cat, i, requestId, at).Ok? {
      var m := Draft(cat, i, requestId, at).value;
      ApplyMovesAccepts(l.stock, MovesOf(m));
      assert Drafts(cat, i, requestId, at, m);
    }
  }

  /**
   * A post with a new request key, or none, is accepted exactly when its type may be posted directly, its shape is
   * right, and it can be applied; it then does just that.
   */
  lemma PostsExactly(l: Ledger, cat: Catalog, i: MovementInput, requestId: Option<Id>, at: int)
    requires requestId.Some? ==> forall k :: 0 <= k < |l.movements| ==> l.movements[k].requestId != requestId
    ensures var r, applied := Post(l, cat, i, requestId, at), ApplyInTransaction(l, cat, i, requestId, at);
      && (r.Ok? <==>
            && i.kind != RoomConsumption && i.kind != LinenExchange
            && i.lines != [] && (forall k :: 0 <= k < |i.lines| ==> i.lines[k].quantity > 0) && WellShaped(i)
            && applied.Ok?)
      && (r.Ok? ==> r.value == Posted(applied.value, |l.movements|))
  {
    ShapeExactly(i);
    if requestId.Some? {
      ByRequestFinds(l.movements, requestId.value);
    }
  }

  // ----- deciding on a movement -----

  /**
   * Approving is accepted exactly for a pending movement whose lines out, if it takes out, are covered. It
   * makes that movement active, no other changes, and stock changes by what the movement adds.
   */
  lemma ApproveExactly(l: Ledger, clock: int, id: Id)
    requires LedgerInv(l, clock)
    ensures var r := Approve(l, id);
      && (r.Ok? <==>
            && id < |l.movements| && l.movements[id].status == PendingApproval
            && (l.movements[id].kind == AdjustOut ==> DemandCovered(l.stock, l.movements[id])))
      && (r.Ok? ==>
            && r.value.movements == l.movements[id := l.movements[id].(status := Active)]
            && forall p :: Qty(r.value.stock, p) == Qty(l.stock, p) + Adds(l.movements[id], p))
      && (r.Err? ==>
            if id >= |l.movements| then r.error == MovementNotFound
            else if l.movements[id].status != PendingApproval then r.error == MovementNotPending
            else r.error.StockInsufficient?)
  {
    if id < |l.movements| && l.movements[id].status == PendingApproval {
      var m := l.movements[id];
      assert WellFormed(m);
      DistinctSidesUnmixed(m);
      UnmixedAccepts(l.stock, MovesOf(m));
      CoverageIsDemand(l.stock, m);
      if Approve(l, id).Ok? {
        ApplyMovesNet(l.stock, MovesOf(m));
        forall p {
          MovesAdd(m, p);
        }
      } else {
        OnlyShortageRefuses(l.stock, MovesOf(m));
      }
    }
  }

  /** Rejecting is accepted exactly for a pending movement; it cancels that one and leaves stock alone. */
  lemma RejectExactly(l: Ledger, id: Id)
    ensures var r := Reject(l, id);
      && (r.Ok? <==> id < |l.movements| && l.movements[id].status == PendingApproval)
      && (r.Ok? ==> r.value == Ledger(l.stock, l.movements[id := l.movements[id].(status := Cancelled)]))
      && (r.Err? ==> r.error == if id >= |l.movements| then MovementNotFound else MovementNotPending)
  {
  }

  /**
   * Cancelling is accepted exactly for an active movement that is no room consumption or linen exchange and
   * whose lines can be taken back one by one. It cancels that one and takes away what the movement had added.
   */
  lemma CancelExactly(l: Ledger, id: Id)
    ensures var r := Cancel(l, id);
      && (r.Ok? <==>
            && id < |l.movements| && l.movements[id].status == Active
            && l.movements[id].kind != RoomConsumption && l.movements[id].kind != LinenExchange
            && var back := Negate(MovesOf(l.movements[id]));
               forall k :: 0 <= k < |back| ==> Covered(l.stock, back, k))
      && (r.Ok? ==>
            && r.value.movements == l.movements[id := l.movements[id].(status := Cancelled)]
            && forall p :: Qty(r.value.stock, p) == Qty(l.stock, p) - Adds(l.movements[id], p))
  {
    if id < |l.movements| {
      var m := l.movements[id];
      var back := Negate(MovesOf(m));
      ApplyMovesAccepts(l.stock, back);
      if Cancel(l, id).Ok? {
        ApplyMovesNet(l.stock, back);
        NegateNet(MovesOf(m));
        forall p {
          MovesAdd(m, p);
        }
      }
    }
  }

  // ----- decisions over a run -----

  /** The status that an accepted call gives movement `id`, if the call is about it. */
  ghost function Decides(h: Hotel, c: Call, id: Id): Option<MovementStatus> {
    if !c.op.Movements? || Exec(h, c).Err? then None
    else if c.op.m == ApproveMovement(id) then Some(Active)
    else if c.op.m == RejectMovement(id) || c.op.m == CancelMovement(id) then Some(MovementStatus.Cancelled)
    else None
  }

  /** The last such decision of a run. */
  ghost function LastDecision(h: Hotel, calls: seq<Call>, id: Id): Option<MovementStatus>
    decreases |calls|
  {
    if calls == [] then None
    else
      var later := LastDecision(Step(h, calls[0]), calls[1..], id);
      if later.Some? then later else Decides(h, calls[0], id)
  }

  function Decided(m: Movement, decision: Option<MovementStatus>): Movement {
    if decision.Some? then m.(status := decision.value) else m
  }

  /** Movement `id` is left alone. */
  ghost predicate KeepsMovement(before: seq<Movement>, after: seq<Movement>, id: Id) {
    id < |before| <= |after| && after[id] == before[id]
  }

  lemma CountPostingKeeps(l: Ledger, cat: Catalog, warehouse: Id, count: Id, rows: seq<Adjustment>, at: int, id: Id)
    requires PostAdjustments(l, cat, warehouse, count, rows, at).Ok? && id < |l.movements|
    ensures KeepsMovement(l.movements, PostAdjustments(l, cat, warehouse, count, rows, at).value.movements, id)
  {
    if (Upward(rows) != [] || Downward(rows) != []) && cat.countReason.Some? {
      var l1 := PostAdjustment(l, cat, AdjustIn, warehouse, cat.countReason.value, count, Upward(rows), at).value;
      assert KeepsMovement(l.movements, l1.movements, id);
    }
  }

  lemma TaskPostingKeeps(l: Ledger, cat: Catalog, t: Task, at: int, id: Id)
    requires PostTaskMovements(l, cat, t, at).Ok? && id < |l.movements|
    ensures KeepsMovement(l.movements, PostTaskMovements(l, cat, t, at).value.ledger.movements, id)
  {
    var l1 := PostTaskMovement(l, cat, ConsumptionInput(cat, t), at).value.ledger;
    assert KeepsMovement(l.movements, l1.movements, id);
  }

  /** Counts and tasks decide on no movement. */
  lemma CountKeepsMovement(h: Hotel, cat: Catalog, at: int, op: CountOp, id: Id)
    requires ExecCount(h, cat, at, op).Ok? && id < |h.ledger.movements|
    ensures KeepsMovement(h.ledger.movements, ExecCount(h, cat, at, op).value.ledger.movements, id)
  {
    if op.ApproveTheCount? {
      var st := h.stocktakes[op.id];
      var rows := Adjustments(st.warehouse, Since(h.ledger.movements, st.warehouse, st.snapshotAt.value), st.lines);
      CountPostingKeeps(h.ledger, cat, st.warehouse, op.id, rows, at, id);
    }
  }

  lemma TaskKeepsMovement(h: Hotel, cat: Catalog, at: int, op: TaskOp, id: Id)
    requires ExecTask(h, cat, at, op).Ok? && id < |h.ledger.movements|
    ensures KeepsMovement(h.ledger.movements, ExecTask(h, cat, at, op).value.ledger.movements, id)
  {
    if op.Finish? && h.tasks[op.id].status != TaskFinished {
      TaskPostingKeeps(h.ledger, cat, h.tasks[op.id], at, id);
    }
  }

  lemma MovementDecides(l: Ledger, cat: Catalog, at: int, op: MovementOp, id: Id)
    requires ExecMovement(l, cat, at, op).Ok? && id < |l.movements|
    ensures var after := ExecMovement(l, cat, at, op).value.movements;
      && id < |after|
      && after[id] == Decided(l.movements[id],
                              if op == ApproveMovement(id) then Some(Active)
                              else if op == RejectMovement(id) || op == CancelMovement(id) then
                                Some(MovementStatus.Cancelled)
                              else None)
  {
    match op {
      case PostMovement(i, requestId) =>
      case ApproveMovement(k) => assert Approve(l, k).Ok?;
      case RejectMovement(k) => assert Reject(l, k).Ok?;
      case CancelMovement(k) => assert Cancel(l, k).Ok?;
    }
  }

  lemma CallDecides(h: Hotel, c: Call, id: Id)
    requires id < |h.ledger.movements|
    ensures var after := Step(h, c).ledger.movements;
      id < |after| && after[id] == Decided(h.ledger.movements[id], Decides(h, c, id))
  {
    if Exec(h, c).Ok? {
      match c.op {
        case Movements(op) => MovementDecides(h.ledger, c.cat, c.at, op, id);
        case Counts(op) => CountKeepsMovement(h, c.cat, c.at, op, id);
        case Tasks(op) => TaskKeepsMovement(h, c.cat, c.at, op, id);
        case Rooms(_) =>
      }
    }
  }

  /** After any run a movement is as it was but for the last accepted decision on it. */
  lemma {:induction false} OnlyDecisionsChange(h: Hotel, calls: seq<Call>, id: Id)
    requires id < |h.ledger.movements|
    ensures var later := Run(h, calls).ledger.movements;
      id < |later| && later[id] == Decided(h.ledger.movements[id], LastDecision(h, calls, id))
    decreases |calls|
  {
    if calls != [] {
      CallDecides(h, calls[0], id);
      OnlyDecisionsChange(Step(h, calls[0]), calls[1..], id);
    }
  }

  /** What all movements but one imply at a position. */
  function OthersNet(movements: seq<Movement>, id: Id, p: Pos): int
    requires id < |movements|
  {
    ActiveNet(movements[..id] + movements[id + 1..], p)
  }

  /**
   * After any run stock is what the other movements imply, plus what a once pending movement adds exactly when
   * the last decision on it was an approval. Before any decision, and once rejected or cancelled, it adds
   * nothing.
   */
  lemma PendingAddsWhenApproved(h: Hotel, clock: int, calls: seq<Call>, id: Id, p: Pos)
    requires HotelInv(h, clock) && InOrder(clock, calls)
    requires id < |h.ledger.movements| && h.ledger.movements[id].status == PendingApproval
    ensures var later := Run(h, calls).ledger;
      && id < |later.movements|
      && Qty(later.stock, p)
         == OthersNet(later.movements, id, p)
          + if LastDecision(h, calls, id) == Some(Active) then Adds(h.ledger.movements[id], p) else 0
  {
    RunKeeps(h, clock, calls);
    OnlyDecisionsChange(h, calls, id);
    var m, later := h.ledger.movements[id], Run(h, calls).ledger;
    ActiveNetAt(later.movements, id, p);
    ActiveNetSplit(later.movements[..id], later.movements[id + 1..], p);
    StatusKeepsMoves(m, later.movements[id].status, m.lines);
    MovesAdd(m, p);
  }

  /** A movement is approved once: after an approval and any run, approving it again is refused. */
  lemma ApprovedOnce(h: Hotel, clock: int, c: Call, calls: seq<Call>, id: Id)
    requires HotelInv(h, clock) && clock < c.at && InOrder(c.at, calls)
    requires c.op == Movements(ApproveMovement(id)) && Exec(h, c).Ok?
    ensures Approve(Run(Step(h, c), calls).ledger, id) == Err(MovementNotPending)
  {
    ApproveExactly(h.ledger, clock, id);
    StepKeeps(h, c, clock);
    RunContinues(Step(h, c), c.at, calls);
    assert SameMovement(Step(h, c).ledger.movements[id], Run(Step(h, c), calls).ledger.movements[id]);
  }
}
