/** What the warehouse ledger promises about one movement: when it is accepted, and what undoing it means. */
module LedgerLaws {
  import opened Common
  import opened Stock
  import opened Kardex
  import opened Catalog
  import opened Ledger

  /** What the lines take of a product out of one location, repeated products summed. */
  function Demand(lines: seq<Line>, product: Id, location: Id): int {
    if lines == [] then 0
    else (if lines[0].product == product && lines[0].fromLocation == Some(location) then lines[0].quantity else 0)
         + Demand(lines[1..], product, location)
  }

  /** The lines only take out of the source warehouse and only put into the target warehouse. */
  ghost predicate Sided(m: Movement, moves: seq<Move>) {
    forall k :: 0 <= k < |moves| ==>
      if moves[k].delta < 0 then m.source == Some(moves[k].pos.warehouse)
      else moves[k].delta > 0 && m.target == Some(moves[k].pos.warehouse)
  }

  lemma {:induction false} LinesAreSided(m: Movement, lines: seq<Line>)
    requires forall k :: 0 <= k < |lines| ==> WellFormedLine(m, lines[k])
    ensures Sided(m, MovesOfLines(m, lines))
  {
    if lines != [] {
      LinesAreSided(m, lines[1..]);
    }
  }

  predicate BetweenWarehouses(m: Movement) {
    LedgerDeltas(m.kind).source == 0 || LedgerDeltas(m.kind).target == 0 || m.source != m.target
  }

  lemma DistinctSidesUnmixed(m: Movement)
    requires WellFormed(m) && BetweenWarehouses(m)
    ensures Unmixed(MovesOf(m))
  {
    LinesAreSided(m, m.lines);
  }

  lemma {:induction false} NetOfLines(m: Movement, lines: seq<Line>, p: Pos)
    requires WellFormed(m) && BetweenWarehouses(m)
    requires forall k :: 0 <= k < |lines| ==> WellFormedLine(m, lines[k])
    ensures if m.source == Some(p.warehouse) then
              Net(MovesOfLines(m, lines), p) == -Demand(lines, p.product, p.location)
            else Net(MovesOfLines(m, lines), p) >= 0
  {
    if lines != [] {
      NetOfLines(m, lines[1..], p);
      NetSplit(TakeOut(m, lines[0]) + PutIn(m, lines[0]), MovesOfLines(m, lines[1..]), p);
      NetSplit(TakeOut(m, lines[0]), PutIn(m, lines[0]), p);
    }
  }

  /** Every product is covered at every location of the source warehouse. */
  ghost predicate DemandCovered(stock: seq<Row>, m: Movement) {
    m.source.Some? ==>
      forall product, location ::
        Demand(m.lines, product, location) <= Qty(stock, Pos(product, m.source.value, location))
  }

  lemma CoverageIsDemand(stock: seq<Row>, m: Movement)
    requires NonNegative(stock) && WellFormed(m) && BetweenWarehouses(m)
    ensures CoveredInSum(stock, MovesOf(m)) <==> DemandCovered(stock, m)
  {
    forall p
      ensures Qty(stock, p) + Net(MovesOf(m), p) >= 0
         <==> (m.source == Some(p.warehouse) ==> Demand(m.lines, p.product, p.location) <= Qty(stock, p))
    {
      NetOfLines(m, m.lines, p);
      QtyNonNegative(stock, p);
    }
    if CoveredInSum(stock, MovesOf(m)) && m.source.Some? {
      forall product, location
        ensures Demand(m.lines, product, location) <= Qty(stock, Pos(product, m.source.value, location))
      {
        var p := Pos(product, m.source.value, location);
        assert Qty(stock, p) + Net(MovesOf(m), p) >= 0;
      }
    }
    if DemandCovered(stock, m) {
      forall p ensures Qty(stock, p) + Net(MovesOf(m), p) >= 0 {
        if m.source == Some(p.warehouse) {
          assert Demand(m.lines, p.product, p.location) <= Qty(stock, Pos(p.product, m.source.value, p.location));
        }
      }
    }
  }

  lemma {:induction false} OnlyShortageRefuses(rows: seq<Row>, moves: seq<Move>)
    requires ApplyMoves(rows, moves).Err?
    ensures ApplyMoves(rows, moves).error.StockInsufficient?
    decreases |moves|
  {
    if TryMove(rows, moves[0]).Ok? {
      OnlyShortageRefuses(TryMove(rows, moves[0]).value, moves[1..]);
    }
  }

  /**
   * A one-sided movement or one between different warehouses is accepted exactly when, for each
   * product and source location, stock covers the sum of its lines; the only refusal is a shortage.
   */
  lemma AcceptedExactlyWhenCovered(l: Ledger, clock: int, cat: Catalog, i: MovementInput,
                                   requestId: Option<Id>, at: int)
    requires LedgerInv(l, clock) && MovementShapeError(i).None?
    requires Draft(cat, i, requestId, at).Ok?
    requires Draft(cat, i, requestId, at).value.status == Active
    requires BetweenWarehouses(Draft(cat, i, requestId, at).value)
    ensures var m := Draft(cat, i, requestId, at).value; var r := ApplyInTransaction(l, cat, i, requestId, at);
      && (r.Ok? <==> DemandCovered(l.stock, m))
      && (r.Err? ==> r.error.StockInsufficient?)
  {
    var m := Draft(cat, i, requestId, at).value;
    DraftWellFormed(cat, i, requestId, at);
    DistinctSidesUnmixed(m);
    UnmixedAccepts(l.stock, MovesOf(m));
    CoverageIsDemand(l.stock, m);
    if ApplyMoves(l.stock, MovesOf(m)).Err? {
      OnlyShortageRefuses(l.stock, MovesOf(m));
    }
  }

  /** A cancelled movement counts as never posted: stock is what all the other movements imply. */
  lemma CancelErases(l: Ledger, clock: int, id: Id, p: Pos)
    requires LedgerInv(l, clock) && Cancel(l, id).Ok?
    ensures Qty(Cancel(l, id).value.stock, p) == ActiveNet(l.movements[..id] + l.movements[id + 1..], p)
  {
    var l' := Cancel(l, id).value;
    CancelKeeps(l, id, clock);
    ActiveNetAt(l'.movements, id, p);
    assert l'.movements[..id] == l.movements[..id] && l'.movements[id + 1..] == l.movements[id + 1..];
    ActiveNetSplit(l.movements[..id], l.movements[id + 1..], p);
  }

  /**
   * Cancelling right after posting. Lines are taken back in posting order, so it succeeds exactly
   * when each put is covered by the stock before posting and the later lines there; it always does
   * for one-sided movements and between different warehouses, and then it restores all stock.
   */
  lemma PostThenCancel(l: Ledger, clock: int, cat: Catalog, i: MovementInput, requestId: Option<Id>, at: int)
    requires LedgerInv(l, clock) && clock <= at
    requires Post(l, cat, i, requestId, at).Ok?
    requires Post(l, cat, i, requestId, at).value.id == |l.movements|
    requires Draft(cat, i, requestId, at).Ok?
    requires Draft(cat, i, requestId, at).value.status == Active
    ensures var m := Draft(cat, i, requestId, at).value; var posted := Post(l, cat, i, requestId, at).value;
      && (Cancel(posted.ledger, posted.id).Ok? <==>
            forall k :: 0 <= k < |MovesOf(m)| ==> PutStillThere(l.stock, MovesOf(m), k))
      && (BetweenWarehouses(m) ==> Cancel(posted.ledger, posted.id).Ok?)
      && (Cancel(posted.ledger, posted.id).Ok? ==>
            forall p :: Qty(Cancel(posted.ledger, posted.id).value.stock, p) == Qty(l.stock, p))
  {
    if requestId.Some? {
      ByRequestFinds(l.movements, requestId.value);
    }
    var m, posted := Draft(cat, i, requestId, at).value, Post(l, cat, i, requestId, at).value;
    assert posted.ledger.movements[posted.id] == m;
    DraftWellFormed(cat, i, requestId, at);
    UndoAccepts(l.stock, MovesOf(m));
    if BetweenWarehouses(m) {
      DistinctSidesUnmixed(m);
      UnmixedUndo(l.stock, MovesOf(m));
    }
    if Cancel(posted.ledger, posted.id).Ok? {
      UndoRestores(l.stock, MovesOf(m));
    }
  }

  /**
   * The condition can fail: within warehouse 0 one unit goes from location 1 to 2 and on to 3. The
   * transfer is accepted, and cancelling it at once is refused for lack of stock at location 2.
   */
  lemma SameWarehouseChainNotCancellable(cat: Catalog)
    requires cat.products == map[0 := Product(true, false, Consumable, None)]
    requires cat.locations == [Location(1, 0, true, true), Location(2, 0, false, true), Location(3, 0, false, true)]
    ensures var l := Ledger([Row(Pos(0, 0, 1), 1)], []);
      var i := MovementInput(Transfer, Some(0), Some(0), None, None, None, false,
                             [LineInput(0, 1, None, Some(1), Some(2)), LineInput(0, 1, None, Some(2), Some(3))]);
      && Post(l, cat, i, None, 1).Ok?
      && Cancel(Post(l, cat, i, None, 1).value.ledger, 0).Err?
      && Cancel(Post(l, cat, i, None, 1).value.ledger, 0).error.StockInsufficient?
  {
    var l := Ledger([Row(Pos(0, 0, 1), 1)], []);
    var i := MovementInput(Transfer, Some(0), Some(0), None, None, None, false,
                           [LineInput(0, 1, None, Some(1), Some(2)), LineInput(0, 1, None, Some(2), Some(3))]);
    ChainDraft(cat, i);
    var moves := MovesOf(Draft(cat, i, None, 1).value);
    ChainMoves(l.stock, moves);
    UndoAccepts(l.stock, moves);
    OnlyShortageRefuses(ApplyMoves(l.stock, moves).value, Negate(moves));
  }

  lemma ChainDraft(cat: Catalog, i: MovementInput)
    requires cat.products == map[0 := Product(true, false, Consumable, None)]
    requires cat.locations == [Location(1, 0, true, true), Location(2, 0, false, true), Location(3, 0, false, true)]
    requires i.kind == Transfer && i.source == i.target == Some(0) && !i.skipApproval
    requires i.lines == [LineInput(0, 1, None, Some(1), Some(2)), LineInput(0, 1, None, Some(2), Some(3))]
    ensures Draft(cat, i, None, 1).Ok? && Draft(cat, i, None, 1).value.status == Active
    ensures MovesOf(Draft(cat, i, None, 1).value)
         == [Move(Pos(0, 0, 1), -1), Move(Pos(0, 0, 2), 1), Move(Pos(0, 0, 2), -1), Move(Pos(0, 0, 3), 1)]
  {
    assert cat.locations[0].id == 1 && cat.locations[1].id == 2 && cat.locations[2].id == 3;
    var la, lb := Line(0, 1, None, Some(1), Some(2)), Line(0, 1, None, Some(2), Some(3));
    assert ResolveLine(cat, i, i.lines[0]) == Ok(la) && ResolveLine(cat, i, i.lines[1]) == Ok(lb);
    var none: seq<LineInput> := [];
    assert i.lines[1..] == [i.lines[1]] && [i.lines[1]][1..] == none && ResolveLines(cat, i, none) == Ok([]);
    assert ResolveLines(cat, i, i.lines[1..]).Ok? && ResolveLines(cat, i, i.lines[1..]).value == [lb];
    assert ResolveLines(cat, i, i.lines).value == [la, lb];
    assert [la, lb][1..] == [lb] && [lb][1..] == [];
    var m := Draft(cat, i, None, 1).value;
    assert MovesOfLines(m, [lb]) == [Move(Pos(0, 0, 2), -1), Move(Pos(0, 0, 3), 1)];
  }

  lemma ChainMoves(stock: seq<Row>, moves: seq<Move>)
    requires stock == [Row(Pos(0, 0, 1), 1)]
    requires moves == [Move(Pos(0, 0, 1), -1), Move(Pos(0, 0, 2), 1), Move(Pos(0, 0, 2), -1), Move(Pos(0, 0, 3), 1)]
    ensures ApplyMoves(stock, moves).Ok? && !PutStillThere(stock, moves, 1)
  {
    var s1, s2 := [Row(Pos(0, 0, 1), 0)], [Row(Pos(0, 0, 1), 0), Row(Pos(0, 0, 2), 1)];
    assert Upsert(stock, Pos(0, 0, 1), -1) == s1;
    assert s1[1..] == [] && Upsert(s1, Pos(0, 0, 2), 1) == s2;
    assert moves[1..][1..] == moves[2..] == [Move(Pos(0, 0, 2), -1), Move(Pos(0, 0, 3), 1)];
    assert moves[2..][1..] == moves[3..] == [Move(Pos(0, 0, 3), 1)] && moves[3..][1..] == [];
    assert s2[1..] == [Row(Pos(0, 0, 2), 1)];
    assert Qty(s2, Pos(0, 0, 2)) == 1;
    assert ApplyMoves(Upsert(s2, Pos(0, 0, 2), -1), moves[3..]).Ok?;
    assert ApplyMoves(s2, moves[2..]).Ok?;
    assert ApplyMoves(s1, moves[1..]).Ok?;
    assert Net(moves[3..], Pos(0, 0, 2)) == 0;
    assert Net(moves[2..], Pos(0, 0, 2)) == -1;
    assert stock[1..] == [];
  }

  // ----- the observer -----

  function ActiveOnly(movements: seq<Movement>): seq<Movement> {
    if movements == [] then []
    else if movements[0].status == Active then [movements[0]] + ActiveOnly(movements[1..])
    else ActiveOnly(movements[1..])
  }

  /** Pending and cancelled movements contribute nothing to expected stock. */
  lemma {:induction false} ActiveOnlyNet(movements: seq<Movement>, p: Pos)
    ensures LedgerNet(ActiveOnly(movements), p) == ActiveNet(movements, p)
  {
    if movements != [] {
      ActiveOnlyNet(movements[1..], p);
      if movements[0].status == Active {
        assert ActiveOnly(movements)[1..] == ActiveOnly(movements[1..]);
      }
    }
  }

  function VisibleOnly(diffs: seq<Difference>, visible: Option<set<Id>>): seq<Difference> {
    if diffs == [] then []
    else if visible.None? || diffs[0].pos.warehouse in visible.value then [diffs[0]] + VisibleOnly(diffs[1..], visible)
    else VisibleOnly(diffs[1..], visible)
  }

  lemma {:induction false} VisibleOnlyKeeps(diffs: seq<Difference>, visible: Option<set<Id>>, d: Difference)
    ensures d in VisibleOnly(diffs, visible)
       <==> d in diffs && (visible.None? || d.pos.warehouse in visible.value)
  {
    if diffs != [] {
      VisibleOnlyKeeps(diffs[1..], visible, d);
      assert d in diffs <==> d == diffs[0] || d in diffs[1..];
    }
  }

  /**
   * Reconciliation reports a visible position exactly when the stock table differs there from the
   * active movements. With the ledger's invariant that is never, whatever warehouses are visible.
   */
  method Reconcile(l: Ledger, visible: Option<set<Id>>) returns (diffs: seq<Difference>)
    requires Unique(l.stock)
    ensures forall p ::
              ((exists d :: d in diffs && d.pos == p)
                <==> Qty(l.stock, p) != ActiveNet(l.movements, p) && (visible.None? || p.warehouse in visible.value))
    ensures InStep(l) ==> diffs == []
  {
    var expected := ExpectedStock(ActiveOnly(l.movements));
    var all := DiffStock(l.stock, expected);
    diffs := VisibleOnly(all, visible);
    forall p
      ensures (exists d :: d in diffs && d.pos == p)
         <==> Qty(l.stock, p) != ActiveNet(l.movements, p) && (visible.None? || p.warehouse in visible.value)
    {
      ActiveOnlyNet(l.movements, p);
      ByPositionQty(l.stock, p);
      assert Reported(all, p) <==> Qty(l.stock, p) != ActiveNet(l.movements, p);
      if d :| d in diffs && d.pos == p {
        VisibleOnlyKeeps(all, visible, d);
      }
      if Reported(all, p) {
        var k :| 0 <= k < |all| && all[k].pos == p;
        VisibleOnlyKeeps(all, visible, all[k]);
      }
    }
    assert diffs != [] ==> diffs[0] in diffs;
  }
}
