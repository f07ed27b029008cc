/** The physical-count service, over the same tables as the movement service it posts through. */
module StocktakeService {
  import opened Common
  import opened Stock
  import opened Kardex
  import opened Catalog
  import opened Ledger
  import opened HotelState
  import opened Stocktakes
  import opened Database
  import opened MovementService

  /** Position key of the photo: product and location within the count's warehouse. */
  datatype Spot = Spot(product: Id, location: Id)

  function NetAt(net: map<Spot, int>, product: Id, location: Id): int {
    if Spot(product, location) in net then net[Spot(product, location)] else 0
  }

  /** Lines of other products and locations are passed over. */
  lemma {:induction false} SetCountFrom(lines: seq<CountLine>, k: nat, c: CountInput)
    requires k <= |lines|
    requires forall i :: 0 <= i < k ==> !(lines[i].product == c.product && lines[i].location == c.location)
    ensures SetCount(lines, c) == lines[..k] + SetCount(lines[k..], c)
  {
    if k == 0 {
      assert lines[0..] == lines && lines[..0] == [];
    } else {
      SetCountFrom(lines[1..], k - 1, c);
      assert lines[1..][k - 1..] == lines[k..] && lines[..k] == [lines[0]] + lines[1..][..k - 1];
    }
  }

  class HotelStocktakeService {
    const db: Database
    const movements: HotelMovementService

    constructor (db: Database, movements: HotelMovementService)
      ensures this.db == db && this.movements == movements
    {
      this.db, this.movements := db, movements;
    }

    method Create(cat: Catalog, warehouse: Id) returns (r: Result<Id>)
      modifies db`stocktakes
      ensures match CreateStocktake(old(db.View()), cat, warehouse)
        case Ok(h) => r == Ok(|old(db.stocktakes)|) && db.View() == h
        case Err(e) => r == Err(e) && db.View() == old(db.View())
    {
      if !ActiveWarehouse(cat.warehouses, warehouse) {
        return Err(WarehouseNotFound);
      }
      for k := 0 to |db.stocktakes|
        invariant forall j ::
                    0 <= j < k ==> !(db.stocktakes[j].warehouse == warehouse && IsOpen(db.stocktakes[j].status))
      {
        if db.stocktakes[k].warehouse == warehouse && IsOpen(db.stocktakes[k].status) {
          return Err(StocktakeOpenExists);
        }
      }
      r := Ok(|db.stocktakes|);
      db.stocktakes := db.stocktakes + [Stocktake(warehouse, CountDraft, None, None, [])];
    }

    /** Takes the photo of positive stock and opens the count. */
    method Start(id: Id, at: int) returns (r: Result<()>)
      modifies db`stocktakes
      ensures match StartStocktake(old(db.View()), id, at)
        case Ok(h) => r == Ok(()) && db.View() == h
        case Err(e) => r == Err(e) && db.View() == old(db.View())
    {
      if id >= |db.stocktakes| {
        return Err(StocktakeNotFound);
      }
      var st := db.stocktakes[id];
      var next := NextStatus(st.status, CountAction.Start);
      if next.Err? {
        return Err(next.error);
      }
      var lines := st.lines;
      for k := 0 to |db.stock|
        invariant lines + PhotoLines(db.stock[k..], st.warehouse) == st.lines + PhotoLines(db.stock, st.warehouse)
      {
        assert db.stock[k..][1..] == db.stock[k + 1..];
        var row := db.stock[k];
        if row.pos.warehouse == st.warehouse && row.quantity > 0 {
          lines := lines + [CountLine(row.pos.product, row.pos.location, row.quantity, None)];
        }
      }
      assert lines + [] == lines;
      db.stocktakes := db.stocktakes[id := st.(status := next.value, snapshotAt := Some(at), lines := lines)];
      r := Ok(());
    }

    /** Records counts in order; one bad count rolls them all back. */
    method Capture(cat: Catalog, id: Id, counts: seq<CountInput>) returns (r: Result<()>)
      modifies db`stocktakes
      ensures match CaptureStocktake(old(db.View()), cat, id, counts)
        case Ok(h) => r == Ok(()) && db.View() == h
        case Err(e) => r == Err(e) && db.View() == old(db.View())
    {
      if id >= |db.stocktakes| {
        return Err(StocktakeNotFound);
      }
      if db.stocktakes[id].status != Counting {
        return Err(StocktakeInvalidState);
      }
      var before := db.stocktakes;
      var w := before[id].warehouse;
      for k := 0 to |counts|
        invariant id < |db.stocktakes| && db.stocktakes == before[id := before[id].(lines := db.stocktakes[id].lines)]
        invariant CaptureLines(cat, w, db.stocktakes[id].lines, counts[k..])
            == CaptureLines(cat, w, before[id].lines, counts)
      {
        assert counts[k..][1..] == counts[k + 1..];
        var c := counts[k];
        if c.countedQty < 0 {
          db.stocktakes := before;
          return Err(CountQuantityInvalid);
        }
        if !HasLocation(cat.locations, c.location, w) {
          db.stocktakes := before;
          return Err(LocationNotInWarehouse);
        }
        RecordCount(id, c);
      }
      r := Ok(());
    }

    /** Updates the line of a product and location, or creates it with nothing photographed. */
    method RecordCount(id: Id, c: CountInput)
      requires id < |db.stocktakes|
      modifies db`stocktakes
      ensures db.stocktakes
          == old(db.stocktakes)[id := old(db.stocktakes)[id].(lines := SetCount(old(db.stocktakes)[id].lines, c))]
    {
      var lines := Recorded(db.stocktakes[id].lines, c);
      db.stocktakes := db.stocktakes[id := db.stocktakes[id].(lines := lines)];
    }

    static method Recorded(lines: seq<CountLine>, c: CountInput) returns (after: seq<CountLine>)
      ensures after == SetCount(lines, c)
    {
      var k := 0;
      while k < |lines| && !(lines[k].product == c.product && lines[k].location == c.location)
        invariant k <= |lines|
        invariant forall i :: 0 <= i < k ==> !(lines[i].product == c.product && lines[i].location == c.location)
      {
        k := k + 1;
      }
      SetCountFrom(lines, k, c);
      if k < |lines| {
        assert lines[k..][1..] == lines[k + 1..];
        after := lines[k := lines[k].(countedQty := Some(c.countedQty))];
      } else {
        after := lines + [CountLine(c.product, c.location, 0, Some(c.countedQty))];
      }
    }

    /** Closing requires every line to be counted. */
    method Close(id: Id, actor: Id) returns (r: Result<()>)
      modifies db`stocktakes
      ensures match CloseStocktake(old(db.View()), id, actor)
        case Ok(h) => r == Ok(()) && db.View() == h
        case Err(e) => r == Err(e) && db.View() == old(db.View())
    {
      if id >= |db.stocktakes| {
        return Err(StocktakeNotFound);
      }
      var st := db.stocktakes[id];
      var next := NextStatus(st.status, CountAction.Close);
      if next.Err? {
        return Err(next.error);
      }
      for k := 0 to |st.lines|
        invariant AllCounted(st.lines[..k])
      {
        if st.lines[k].countedQty.None? {
          return Err(StocktakeLinesUncounted);
        }
      }
      db.stocktakes := db.stocktakes[id := st.(status := next.value, closedBy := Some(actor))];
      r := Ok(());
    }

    method Cancel(id: Id) returns (r: Result<()>)
      modifies db`stocktakes
      ensures match CancelStocktake(old(db.View()), id)
        case Ok(h) => r == Ok(()) && db.View() == h
        case Err(e) => r == Err(e) && db.View() == old(db.View())
    {
      if id >= |db.stocktakes| {
        return Err(StocktakeNotFound);
      }
      var next := NextStatus(db.stocktakes[id].status, CountAction.CancelCount);
      if next.Err? {
        return Err(next.error);
      }
      db.stocktakes := db.stocktakes[id := db.stocktakes[id].(status := next.value)];
      r := Ok(());
    }

    /** Net movement per product and location posted after the photo, for one warehouse. */
    method MovementsSince(warehouse: Id, snapshotAt: int) returns (net: map<Spot, int>)
      ensures forall product, location ::
                NetAt(net, product, location)
                == LedgerNet(Since(db.movements, warehouse, snapshotAt), Pos(product, warehouse, location))
    {
      var found: seq<Movement> := [];
      for k := 0 to |db.movements|
        invariant found + Since(db.movements[k..], warehouse, snapshotAt) == Since(db.movements, warehouse, snapshotAt)
      {
        assert db.movements[k..][1..] == db.movements[k + 1..];
        if CountsAsSince(db.movements[k], warehouse, snapshotAt) {
          found := found + [db.movements[k]];
        }
      }
      assert found + [] == found;
      var expected := ExpectedStock(found);
      net := map[];
      var keys := expected.Keys;
      while keys != {}
        invariant keys <= expected.Keys
        invariant forall product, location ::
                    NetAt(net, product, location)
                    == if Pos(product, warehouse, location) in expected.Keys - keys
                       then expected[Pos(product, warehouse, location)] else 0
        decreases |keys|
      {
        var p :| p in keys;
        keys := keys - {p};
        if p.warehouse == warehouse {
          net := net[Spot(p.product, p.location) := expected[p]];
        }
      }
      forall product, location
        ensures NetAt(net, product, location) == LedgerNet(found, Pos(product, warehouse, location))
      {
        assert Lookup(expected, Pos(product, warehouse, location))
            == LedgerNet(found, Pos(product, warehouse, location));
      }
    }

    /** Approves the count and posts its adjustments, inbound first, in one transaction. */
    method Approve(cat: Catalog, id: Id, actor: Id, canApproveOwnClose: bool, at: int) returns (r: Result<()>)
      requires db.Valid() && movements.db == db
      modifies db`stock, db`movements, db`stocktakes
      ensures db.Valid()
      ensures match ApproveStocktake(old(db.View()), cat, id, actor, canApproveOwnClose, at)
        case Ok(h) => r == Ok(()) && db.View() == h
        case Err(e) => r == Err(e) && db.View() == old(db.View())
    {
      if id >= |db.stocktakes| {
        return Err(StocktakeNotFound);
      }
      var st := db.stocktakes[id];
      var next := NextStatus(st.status, CountAction.ApproveCount);
      if next.Err? {
        return Err(next.error);
      }
      if st.closedBy == Some(actor) && !canApproveOwnClose {
        return Err(SelfApproval);
      }
      if st.snapshotAt.None? {
        return Err(StocktakeInvalidState);
      }
      var stock, log := db.stock, db.movements;
      var rows := Differences(st);
      var error := PostBoth(cat, st.warehouse, id, rows, at);
      if error.Some? {
        db.stock, db.movements := stock, log;
        return Err(error.value);
      }
      db.stocktakes := db.stocktakes[id := st.(status := next.value)];
      r := Ok(());
    }

    /** The lines whose count differs from the photo and the movements since, in line order. */
    method Differences(st: Stocktake) returns (rows: seq<Adjustment>)
      requires st.snapshotAt.Some?
      ensures rows == Adjustments(st.warehouse, Since(db.movements, st.warehouse, st.snapshotAt.value), st.lines)
    {
      var net := MovementsSince(st.warehouse, st.snapshotAt.value);
      ghost var since := Since(db.movements, st.warehouse, st.snapshotAt.value);
      rows := [];
      for k := 0 to |st.lines|
        invariant rows + Adjustments(st.warehouse, since, st.lines[k..]) == Adjustments(st.warehouse, since, st.lines)
      {
        var line := st.lines[k];
        assert st.lines[k..][1..] == st.lines[k + 1..];
        var difference := CountDifference(if line.countedQty.Some? then line.countedQty.value else 0, line.systemQty,
                                          NetAt(net, line.product, line.location));
        assert difference == DifferenceOf(st.warehouse, since, line);
        if difference != 0 {
          rows := rows + [Adjustment(line, difference)];
        }
      }
      assert rows + [] == rows;
    }

    /** Posts the upward adjustments and then the downward ones; the caller rolls back on an error. */
    method PostBoth(cat: Catalog, warehouse: Id, id: Id, rows: seq<Adjustment>, at: int) returns (error: Option<Error>)
      requires db.Valid() && movements.db == db
      modifies db`stock, db`movements
      ensures db.Valid()
      ensures match PostAdjustments(old(db.Books()), cat, warehouse, id, rows, at)
        case Ok(l) => error.None? && db.Books() == l
        case Err(e) => error == Some(e)
    {
      var inbound, outbound := Upward(rows), Downward(rows);
      if |inbound| + |outbound| > 0 {
        if cat.countReason.None? {
          return Some(StocktakeReasonMissing);
        }
        error := PostOne(cat, AdjustIn, warehouse, cat.countReason.value, id, inbound, at);
        if error.Some? {
          return;
        }
        error := PostOne(cat, AdjustOut, warehouse, cat.countReason.value, id, outbound, at);
        return;
      }
      error := None;
    }

    method PostOne(cat: Catalog, kind: MovementType, warehouse: Id, reason: Id, id: Id, rows: seq<Adjustment>, at: int)
      returns (error: Option<Error>)
      requires db.Valid() && movements.db == db
      modifies db`stock, db`movements
      ensures db.Valid()
      ensures match PostAdjustment(old(db.Books()), cat, kind, warehouse, reason, id, rows, at)
        case Ok(l) => error.None? && db.Books() == l
        case Err(e) => error == Some(e)
    {
      if rows == [] {
        return None;
      }
      var input := AdjustmentInput(kind, warehouse, reason, id, rows);
      var shape := MovementShapeError(input);
      if shape.Some? {
        return Some(shape.value);
      }
      var r := movements.ApplyInTransaction(cat, input, None, at);
      error := if r.Ok? then None else Some(r.error);
    }
  }
}
