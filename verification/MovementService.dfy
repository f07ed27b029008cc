/** The warehouse ledger service: every stock change is a movement applied in one transaction. */
module MovementService {
  import opened Common
  import opened Stock
  import opened Kardex
  import opened Catalog
  import opened Ledger
  import opened HotelState
  import opened Database
  import Spec = Ledger

  function ThenApply(r: Result<seq<Row>>, moves: seq<Move>): Result<seq<Row>> {
    var rows :- r;
    ApplyMoves(rows, moves)
  }

  /** Applying `first` and then `rest` is applying them together. */
  lemma {:induction false} ApplyConcat(rows: seq<Row>, first: seq<Move>, rest: seq<Move>)
    ensures ApplyMoves(rows, first + rest) == ThenApply(ApplyMoves(rows, first), rest)
    decreases |first|
  {
    if first == [] {
      assert first + rest == rest;
    } else {
      assert (first + rest)[1..] == first[1..] + rest;
      if TryMove(rows, first[0]).Ok? {
        ApplyConcat(TryMove(rows, first[0]).value, first[1..], rest);
      }
    }
  }

  lemma ApplyOne(rows: seq<Row>, m: Move)
    ensures ApplyMoves(rows, [m]) == TryMove(rows, m)
  {
    assert [m][1..] == [];
  }

  class HotelMovementService {
    const db: Database

    constructor (db: Database)
      ensures this.db == db
    {
      this.db := db;
    }

    /** Adds `delta` (negative to take out) to a stock row. Takes out only if the stock covers it. */
    method Move(p: Pos, delta: int) returns (error: Option<Error>)
      modifies db`stock
      ensures match TryMove(old(db.stock), Stock.Move(p, delta))
        case Ok(rows) => error.None? && db.stock == rows
        case Err(e) => error == Some(e) && db.stock == old(db.stock)
    {
      var k := 0;
      while k < |db.stock| && db.stock[k].pos != p
        invariant k <= |db.stock| && forall i :: 0 <= i < k ==> db.stock[i].pos != p
      {
        k := k + 1;
      }
      UpsertFrom(db.stock, k, p, delta);
      var available := if k < |db.stock| then db.stock[k].quantity else 0;
      if delta < 0 && available < -delta {
        return Some(StockInsufficient(p.product, available, -delta));
      }
      if k < |db.stock| {
        assert db.stock[k..][1..] == db.stock[k + 1..];
        db.stock := db.stock[k := Row(p, available + delta)];
      } else {
        db.stock := db.stock + [Row(p, delta)];
      }
      error := None;
    }

    /** Reads products and locations and settles each line, stopping at the first that fails. */
    method Resolve(cat: Catalog, input: MovementInput) returns (r: Result<seq<Line>>)
      ensures r.Ok? ==>
                && ResolveLines(cat, input, input.lines).Ok?
                && r.value == ResolveLines(cat, input, input.lines).value
      ensures r.Err? ==> ResolveLines(cat, input, input.lines) == r
    {
      var lines: seq<Line> := [];
      for k := 0 to |input.lines|
        invariant ResolveLines(cat, input, input.lines[k..]).Ok? ==>
                    && ResolveLines(cat, input, input.lines).Ok?
                    && ResolveLines(cat, input, input.lines).value
                        == lines + ResolveLines(cat, input, input.lines[k..]).value
        invariant ResolveLines(cat, input, input.lines[k..]).Err? ==>
                    ResolveLines(cat, input, input.lines) == ResolveLines(cat, input, input.lines[k..])
      {
        assert input.lines[k..][1..] == input.lines[k + 1..];
        var line := ResolveLine(cat, input, input.lines[k]);
        if line.Err? {
          return Err(line.error);
        }
        lines := lines + [line.value];
      }
      r := Ok(lines);
    }

    method Totals(lines: seq<Line>) returns (quantity: int, cost: int)
      ensures quantity == SumQuantity(lines) && cost == SumCost(lines)
    {
      quantity, cost := 0, 0;
      for k := 0 to |lines|
        invariant quantity + SumQuantity(lines[k..]) == SumQuantity(lines)
        invariant cost + SumCost(lines[k..]) == SumCost(lines)
      {
        assert lines[k..][1..] == lines[k + 1..];
        quantity := quantity + lines[k].quantity;
        cost := cost + lines[k].quantity * (if lines[k].unitCost.Some? then lines[k].unitCost.value else 0);
      }
    }

    /** Applies a movement inside the caller's transaction; the caller has validated its shape. */
    method ApplyInTransaction(cat: Catalog, input: MovementInput, requestId: Option<Id>, at: int)
      returns (r: Result<Id>)
      requires db.Valid() && MovementShapeError(input).None?
      modifies db`stock, db`movements
      ensures db.Valid()
      ensures match Spec.ApplyInTransaction(old(db.Books()), cat, input, requestId, at)
        case Ok(l) => r == Ok(|old(db.movements)|) && db.Books() == l
        case Err(e) => r == Err(e) && db.movements == old(db.movements)
    {
      var resolved := Resolve(cat, input);
      if resolved.Err? {
        return Err(resolved.error);
      }
      var lines := resolved.value;
      var quantity, cost := Totals(lines);
      var isAdjustment := input.kind == AdjustIn || input.kind == AdjustOut;
      var status := if isAdjustment && !input.skipApproval && NeedsApproval(quantity, cost, cat.thresholds)
                    then PendingApproval else Active;
      var m := Movement(input.kind, status, input.source, input.target, input.room, input.reason, requestId,
                        input.stocktake, at, lines);
      assert Draft(cat, input, requestId, at) == Ok(m);
      DraftWellFormed(cat, input, requestId, at);
      if status == Active {
        var error := ApplyLines(m);
        if error.Some? {
          return Err(error.value);
        }
      }
      r := Ok(|db.movements|);
      db.movements := db.movements + [m];
    }

    /** Takes one line out of its source and then puts it into its target. */
    method ApplyLine(m: Movement, line: Line) returns (error: Option<Error>)
      requires WellFormed(m) && WellFormedLine(m, line)
      modifies db`stock
      ensures match ApplyMoves(old(db.stock), TakeOut(m, line) + PutIn(m, line))
        case Ok(rows) => error.None? && db.stock == rows
        case Err(e) => error == Some(e)
    {
      ApplyConcat(db.stock, TakeOut(m, line), PutIn(m, line));
      if line.fromLocation.Some? {
        ApplyOne(db.stock, TakeOut(m, line)[0]);
        error := Move(Pos(line.product, m.source.value, line.fromLocation.value), -line.quantity);
        if error.Some? {
          return;
        }
      }
      error := None;
      if line.toLocation.Some? {
        ApplyOne(db.stock, PutIn(m, line)[0]);
        error := Move(Pos(line.product, m.target.value, line.toLocation.value), line.quantity);
      }
    }

    method ApplyLines(m: Movement) returns (error: Option<Error>)
      requires WellFormed(m)
      modifies db`stock
      ensures match ApplyMoves(old(db.stock), MovesOf(m))
        case Ok(rows) => error.None? && db.stock == rows
        case Err(e) => error == Some(e)
    {
      for k := 0 to |m.lines|
        invariant ApplyMoves(db.stock, MovesOfLines(m, m.lines[k..])) == ApplyMoves(old(db.stock), MovesOf(m))
      {
        assert m.lines[k..][1..] == m.lines[k + 1..];
        ApplyConcat(db.stock, TakeOut(m, m.lines[k]) + PutIn(m, m.lines[k]), MovesOfLines(m, m.lines[k + 1..]));
        error := ApplyLine(m, m.lines[k]);
        if error.Some? {
          return;
        }
      }
      error := None;
    }

    /** Puts one line back into its source and then takes it back out of its target. */
    method RevertLine(m: Movement, line: Line) returns (error: Option<Error>)
      requires WellFormed(m) && WellFormedLine(m, line)
      modifies db`stock
      ensures match ApplyMoves(old(db.stock), Negate(TakeOut(m, line) + PutIn(m, line)))
        case Ok(rows) => error.None? && db.stock == rows
        case Err(e) => error == Some(e)
    {
      var inverse := InvertDeltas(LedgerDeltas(m.kind));
      NegateConcat(TakeOut(m, line), PutIn(m, line));
      ApplyConcat(db.stock, Negate(TakeOut(m, line)), Negate(PutIn(m, line)));
      if inverse.source != 0 && line.fromLocation.Some? {
        ApplyOne(db.stock, Negate(TakeOut(m, line))[0]);
        error := Move(Pos(line.product, m.source.value, line.fromLocation.value), line.quantity);
        if error.Some? {
          return;
        }
      }
      error := None;
      if inverse.target != 0 && line.toLocation.Some? {
        ApplyOne(db.stock, Negate(PutIn(m, line))[0]);
        error := Move(Pos(line.product, m.target.value, line.toLocation.value), -line.quantity);
      }
    }

    /** Reverts the lines in the order they were posted. */
    method RevertLines(m: Movement) returns (error: Option<Error>)
      requires WellFormed(m)
      modifies db`stock
      ensures match ApplyMoves(old(db.stock), Negate(MovesOf(m)))
        case Ok(rows) => error.None? && db.stock == rows
        case Err(e) => error == Some(e)
    {
      for k := 0 to |m.lines|
        invariant ApplyMoves(db.stock, Negate(MovesOfLines(m, m.lines[k..])))
            == ApplyMoves(old(db.stock), Negate(MovesOf(m)))
      {
        ghost var first, rest := TakeOut(m, m.lines[k]) + PutIn(m, m.lines[k]), MovesOfLines(m, m.lines[k + 1..]);
        assert m.lines[k..][1..] == m.lines[k + 1..];
        NegateConcat(first, rest);
        ApplyConcat(db.stock, Negate(first), Negate(rest));
        error := RevertLine(m, m.lines[k]);
        if error.Some? {
          return;
        }
      }
      error := None;
    }

    /** Posts a request of the API. A request key posts once; a refusal rolls the transaction back. */
    method Post(cat: Catalog, input: MovementInput, requestId: Option<Id>, at: int) returns (r: Result<Id>)
      requires db.Valid()
      modifies db`stock, db`movements
      ensures db.Valid()
      ensures match Spec.Post(old(db.Books()), cat, input, requestId, at)
        case Ok(posted) => r == Ok(posted.id) && db.Books() == posted.ledger
        case Err(e) => r == Err(e) && db.Books() == old(db.Books())
    {
      if !IsApiType(input.kind) {
        return Err(MovementTypeNotSupported);
      }
      if requestId.Some? {
        var existing := ByRequest(db.movements, requestId.value);
        if existing.Some? {
          return Ok(existing.value);
        }
      }
      var shape := MovementShapeError(input);
      if shape.Some? {
        return Err(shape.value);
      }
      var before := db.stock;
      r := ApplyInTransaction(cat, input, requestId, at);
      if r.Err? {
        db.stock := before;
      }
    }

    /** Cancels an active movement by applying the opposite signs, in line order. */
    method Cancel(id: Id) returns (r: Result<()>)
      requires db.Valid()
      modifies db`stock, db`movements
      ensures db.Valid()
      ensures match Spec.Cancel(old(db.Books()), id)
        case Ok(l) => r == Ok(()) && db.Books() == l
        case Err(e) => r == Err(e) && db.Books() == old(db.Books())
    {
      if id >= |db.movements| {
        return Err(MovementNotFound);
      }
      var m := db.movements[id];
      if m.status != Active {
        return Err(MovementNotActive);
      }
      if !IsCancellable(m.kind) {
        return Err(MovementNotCancellable);
      }
      var before := db.stock;
      var error := RevertLines(m);
      if error.Some? {
        db.stock := before;
        return Err(error.value);
      }
      db.movements := db.movements[id := m.(status := Cancelled)];
      r := Ok(());
    }

    /** Applies a pending adjustment with the stock rules of a direct movement. */
    method Approve(id: Id) returns (r: Result<()>)
      requires db.Valid()
      modifies db`stock, db`movements
      ensures db.Valid()
      ensures match Spec.Approve(old(db.Books()), id)
        case Ok(l) => r == Ok(()) && db.Books() == l
        case Err(e) => r == Err(e) && db.Books() == old(db.Books())
    {
      if id >= |db.movements| {
        return Err(MovementNotFound);
      }
      if db.movements[id].status != PendingApproval {
        return Err(MovementNotPending);
      }
      var before := db.stock;
      var error := ApplyLines(db.movements[id]);
      if error.Some? {
        db.stock := before;
        return Err(error.value);
      }
      db.movements := db.movements[id := db.movements[id].(status := Active)];
      r := Ok(());
    }

    /** Rejects a pending adjustment: it is cancelled and stock does not move. */
    method Reject(id: Id) returns (r: Result<()>)
      requires db.Valid()
      modifies db`movements
      ensures db.Valid()
      ensures match Spec.Reject(old(db.Books()), id)
        case Ok(l) => r == Ok(()) && db.Books() == l
        case Err(e) => r == Err(e) && db.Books() == old(db.Books())
    {
      if id >= |db.movements| {
        return Err(MovementNotFound);
      }
      if db.movements[id].status != PendingApproval {
        return Err(MovementNotPending);
      }
      db.movements := db.movements[id := db.movements[id].(status := Cancelled)];
      r := Ok(());
    }
  }

  lemma {:induction false} NegateConcat(a: seq<Move>, b: seq<Move>)
    ensures Negate(a + b) == Negate(a) + Negate(b)
  {
    if a == [] {
      assert a + b == b;
    } else {
      NegateConcat(a[1..], b);
      assert (a + b)[1..] == a[1..] + b;
    }
  }
}
