/** What a finished task consumes, and what it sends to the laundry. */
module LinenLaws {
  import opened Common
  import opened Stock
  import opened Kardex
  import opened Catalog
  import opened Ledger
  import opened HotelState
  import opened Housekeeping
  import opened HotelLaws
  import opened TaskLaws

  // ----- stock of a product in one warehouse -----

  function TotalIn(rows: seq<Row>, warehouse: Id, product: Id): int {
    if rows == [] then 0
    else
      (if rows[0].pos.warehouse == warehouse && rows[0].pos.product == product then rows[0].quantity else 0)
      + TotalIn(rows[1..], warehouse, product)
  }

  function NetIn(moves: seq<Move>, warehouse: Id, product: Id): int {
    if moves == [] then 0
    else
      (if moves[0].pos.warehouse == warehouse && moves[0].pos.product == product then moves[0].delta else 0)
      + NetIn(moves[1..], warehouse, product)
  }

  lemma {:induction false} TotalInUpsert(rows: seq<Row>, p: Pos, delta: int, warehouse: Id, product: Id)
    ensures TotalIn(Upsert(rows, p, delta), warehouse, product)
         == TotalIn(rows, warehouse, product) + if p.warehouse == warehouse && p.product == product then delta else 0
  {
    if rows != [] && rows[0].pos != p {
      TotalInUpsert(rows[1..], p, delta, warehouse, product);
      assert Upsert(rows, p, delta)[1..] == Upsert(rows[1..], p, delta);
    } else if rows != [] {
      assert Upsert(rows, p, delta)[1..] == rows[1..];
    }
  }

  lemma {:induction false} ApplyMovesTotalIn(rows: seq<Row>, moves: seq<Move>, warehouse: Id, product: Id)
    requires ApplyMoves(rows, moves).Ok?
    ensures TotalIn(ApplyMoves(rows, moves).value, warehouse, product)
         == TotalIn(rows, warehouse, product) + NetIn(moves, warehouse, product)
    decreases |moves|
  {
    if moves != [] {
      ApplyMovesTotalIn(TryMove(rows, moves[0]).value, moves[1..], warehouse, product);
      TotalInUpsert(rows, moves[0].pos, moves[0].delta, warehouse, product);
    }
  }

  lemma {:induction false} NetInSplit(a: seq<Move>, b: seq<Move>, warehouse: Id, product: Id)
    ensures NetIn(a + b, warehouse, product) == NetIn(a, warehouse, product) + NetIn(b, warehouse, product)
  {
    if a == [] {
      assert a + b == b;
    } else {
      NetInSplit(a[1..], b, warehouse, product);
      assert (a + b)[1..] == a[1..] + b;
    }
  }

  function IfIn(side: Option<Id>, warehouse: Id, quantity: int): int {
    if side == Some(warehouse) then quantity else 0
  }

  lemma {:induction false} LinesTotalIn(m: Movement, lines: seq<Line>, warehouse: Id, product: Id)
    requires m.kind == RoomConsumption || m.kind == LinenExchange
    requires WellFormed(m) && forall k :: 0 <= k < |lines| ==> WellFormedLine(m, lines[k])
    ensures var total := LineTotal(lines, product);
      NetIn(MovesOfLines(m, lines), warehouse, product)
      == (if m.kind == LinenExchange then IfIn(m.target, warehouse, total) else 0) - IfIn(m.source, warehouse, total)
  {
    if lines != [] {
      LinesTotalIn(m, lines[1..], warehouse, product);
      NetInSplit(TakeOut(m, lines[0]) + PutIn(m, lines[0]), MovesOfLines(m, lines[1..]), warehouse, product);
      NetInSplit(TakeOut(m, lines[0]), PutIn(m, lines[0]), warehouse, product);
    }
  }

  // ----- the two movements of a task -----

  /** The lines of one kind carry all of a product of that kind, and nothing of another. */
  lemma {:induction false} SplitByKind(cat: Catalog, lines: seq<TaskLine>, linen: bool, product: Id)
    ensures InputTotal(LinesToMove(cat, lines, linen), product)
         == if (product in cat.products && cat.products[product].kind == Linen) == linen then TaskTotal(lines, product)
            else 0
  {
    if lines != [] {
      SplitByKind(cat, lines[1..], linen, product);
      if IsLinen(cat, lines[0].product) == linen {
        assert LinesToMove(cat, lines, linen)[1..] == LinesToMove(cat, lines[1..], linen);
      }
    }
  }

  /** What one movement of a task changes. */
  lemma TaskMovementMoves(l: Ledger, clock: int, cat: Catalog, i: MovementInput, at: int, warehouse: Id, product: Id)
    requires LedgerInv(l, clock) && (i.kind == RoomConsumption || i.kind == LinenExchange)
    requires PostTaskMovement(l, cat, i, at).Ok?
    ensures var moved := PostTaskMovement(l, cat, i, at).value; var total := InputTotal(i.lines, product);
      && (moved.id.Some? <==> i.lines != [])
      && (moved.id.Some? ==>
            && moved.id.value == |l.movements| && |moved.ledger.movements| == |l.movements| + 1
            && var m := moved.ledger.movements[moved.id.value];
               m.kind == i.kind && m.status == Active && m.source == i.source && m.target == i.target
               && m.room == i.room && LineTotal(m.lines, product) == total)
      && TotalIn(moved.ledger.stock, warehouse, product)
         == TotalIn(l.stock, warehouse, product) - IfIn(i.source, warehouse, total)
          + (if i.kind == LinenExchange then IfIn(i.target, warehouse, total) else 0)
      && Total(moved.ledger.stock, product) == Total(l.stock, product) + HotelWideChange(i.kind, total)
  {
    if i.lines != [] {
      var m := Draft(cat, i, None, at).value;
      DraftWellFormed(cat, i, None, at);
      ResolvedTotal(cat, i, i.lines, product);
      HotelWideTotal(l, clock, cat, i, None, at, product);
      ApplyMovesTotalIn(l.stock, MovesOf(m), warehouse, product);
      LinesTotalIn(m, m.lines, warehouse, product);
    }
  }

  /** The movement a finished task refers to, of the given kind, from its cart. */
  ghost predicate IsMovementOf(movements: seq<Movement>, id: Id, t: Task, kind: MovementType) {
    && id < |movements|
    && var m := movements[id];
       m.kind == kind && m.status == Active && m.source == t.cart && m.room == Some(t.room)
  }

  predicate IsLaundry(cat: Catalog, id: Option<Id>) {
    exists w :: 0 <= w < |cat.warehouses| && Some(cat.warehouses[w].id) == id
      && cat.warehouses[w].kind == WarehouseKind.Laundry && cat.warehouses[w].active
  }

  /** The movement, if any, of a kind, and what it has of a product; without it the task has none. */
  ghost predicate Carries(movements: seq<Movement>, id: Option<Id>, t: Task, kind: MovementType, product: Id,
                          total: int)
  {
    if id.Some? then
      IsMovementOf(movements, id.value, t, kind) && LineTotal(movements[id.value].lines, product) == total
    else total == 0
  }

  lemma {:induction false} LaundryFound(cat: Catalog, warehouses: seq<Warehouse>)
    requires forall w :: w in warehouses ==> w in cat.warehouses
    ensures var found := FindWarehouse(warehouses, WarehouseKind.Laundry, None); found.Some? ==> IsLaundry(cat, found)
  {
    if warehouses != [] {
      LaundryFound(cat, warehouses[1..]);
      assert warehouses[0] in cat.warehouses;
    }
  }

  /** The target of the linen movement, if there is one. */
  function LaundryOf(movements: seq<Movement>, linenMovement: Option<Id>): Option<Id> {
    if linenMovement.Some? && linenMovement.value < |movements| then movements[linenMovement.value].target else None
  }

  /** The movement of a task's input, if it has lines, is the task's and carries the input's total. */
  lemma TaskMovementCarries(l: Ledger, clock: int, cat: Catalog, t: Task, i: MovementInput, at: int, product: Id)
    requires LedgerInv(l, clock) && (i.kind == RoomConsumption || i.kind == LinenExchange)
    requires i.source == t.cart && i.room == Some(t.room) && PostTaskMovement(l, cat, i, at).Ok?
    ensures var moved := PostTaskMovement(l, cat, i, at).value;
      && l.movements <= moved.ledger.movements
      && Carries(moved.ledger.movements, moved.id, t, i.kind, product, InputTotal(i.lines, product))
      && (moved.id.Some? ==> LaundryOf(moved.ledger.movements, moved.id) == i.target)
      && (moved.id.None? ==> LaundryOf(moved.ledger.movements, moved.id) == None)
  {
    TaskMovementMoves(l, clock, cat, i, at, 0, product);
  }

  lemma CarriesStays(before: seq<Movement>, after: seq<Movement>, id: Option<Id>, t: Task, kind: MovementType,
                     product: Id, total: int)
    requires before <= after && Carries(before, id, t, kind, product, total)
    ensures Carries(after, id, t, kind, product, total)
  {
    if id.Some? {
      assert after[id.value] == before[id.value];
    }
  }

  lemma TaskPostingsMove(l: Ledger, clock: int, cat: Catalog, t: Task, at: int, warehouse: Id, product: Id)
    requires LedgerInv(l, clock) && clock < at && PostTaskMovements(l, cat, t, at).Ok?
    ensures var posted := PostTaskMovements(l, cat, t, at).value;
      var movements := posted.ledger.movements;
      var laundry := LaundryOf(movements, posted.linenMovement);
      var consumed := InputTotal(LinesToMove(cat, t.lines, false), product);
      var exchanged := InputTotal(LinesToMove(cat, t.lines, true), product);
      && Carries(movements, posted.movement, t, RoomConsumption, product, consumed)
      && Carries(movements, posted.linenMovement, t, LinenExchange, product, exchanged)
      && (posted.linenMovement.Some? ==> IsLaundry(cat, laundry))
      && TotalIn(posted.ledger.stock, warehouse, product)
         == TotalIn(l.stock, warehouse, product) - IfIn(t.cart, warehouse, consumed)
          - IfIn(t.cart, warehouse, exchanged) + IfIn(laundry, warehouse, exchanged)
      && Total(posted.ledger.stock, product) == Total(l.stock, product) - consumed
  {
    var first, second := ConsumptionInput(cat, t), LinenInput(cat, t, FindWarehouse(cat.warehouses, Laundry, None));
    var l1 := PostTaskMovement(l, cat, first, at).value;
    var l2 := PostTaskMovement(l1.ledger, cat, second, at).value;
    TaskMovementStep(l, cat, first, at, clock);
    TaskMovementCarries(l, clock, cat, t, first, at, product);
    TaskMovementCarries(l1.ledger, at, cat, t, second, at, product);
    CarriesStays(l1.ledger.movements, l2.ledger.movements, l1.id, t, RoomConsumption, product,
                 InputTotal(first.lines, product));
    LaundryFound(cat, cat.warehouses);
    TaskMovementMoves(l, clock, cat, first, at, warehouse, product);
    TaskMovementMoves(l1.ledger, at, cat, second, at, warehouse, product);
  }

  /**
   * What finishing a task does with a product. All its lines of a product that is not linen are on the room
   * consumption, and leave the hotel from the cart; all its lines of a linen product are on the linen exchange,
   * and move from the cart to an active laundry, which leaves the hotel-wide stock as it was.
   */
  lemma FinishSplits(h: Hotel, clock: int, cat: Catalog, id: Id, actor: Id, canManage: bool, at: int, product: Id,
                     warehouse: Id)
    requires LedgerInv(h.ledger, clock) && clock < at
    requires FinishTask(h, cat, id, actor, canManage, at).Ok? && h.tasks[id].status != TaskFinished
    ensures var after := FinishTask(h, cat, id, actor, canManage, at).value;
      var t, done, l, l' := h.tasks[id], after.tasks[id], h.ledger, after.ledger;
      var linen := product in cat.products && cat.products[product].kind == Linen;
      var total, laundry := TaskTotal(t.lines, product), LaundryOf(l'.movements, done.linenMovement);
      && Carries(l'.movements, done.movement, t, RoomConsumption, product, if linen then 0 else total)
      && Carries(l'.movements, done.linenMovement, t, LinenExchange, product, if linen then total else 0)
      && (done.linenMovement.Some? ==> IsLaundry(cat, laundry))
      && TotalIn(l'.stock, warehouse, product)
         == TotalIn(l.stock, warehouse, product) - IfIn(t.cart, warehouse, total)
          + (if linen then IfIn(laundry, warehouse, total) else 0)
      && Total(l'.stock, product) == Total(l.stock, product) - if linen then 0 else total
  {
    TaskPostingsMove(h.ledger, clock, cat, h.tasks[id], at, warehouse, product);
    SplitByKind(cat, h.tasks[id].lines, false, product);
    SplitByKind(cat, h.tasks[id].lines, true, product);
  }
}
