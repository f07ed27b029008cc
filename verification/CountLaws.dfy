/** What was counted: the quantities a run has captured are the stock that the approval leaves. */
module CountLaws {
  import opened Common
  import opened Stock
  import opened Kardex
  import opened Catalog
  import opened Ledger
  import opened HotelState
  import opened Stocktakes
  import opened StocktakeLaws
  import opened HotelRuns
  import opened HotelLaws
  import opened RunLaws

  // ----- one capture -----

  predicate IsOf(c: CountInput, product: Id, location: Id) {
    c.product == product && c.location == location
  }

  /** The last quantity given for a product and location. */
  function LastCount(counts: seq<CountInput>, product: Id, location: Id): Option<int> {
    if counts == [] then None
    else
      var later := LastCount(counts[1..], product, location);
      if later.Some? then later
      else if IsOf(counts[0], product, location) then Some(counts[0].countedQty) else None
  }

  /** The count on the line of a product and location; none without such a line. */
  function CountAt(lines: seq<CountLine>, product: Id, location: Id): Option<int> {
    if lines == [] then None
    else if lines[0].product == product && lines[0].location == location then lines[0].countedQty
    else CountAt(lines[1..], product, location)
  }

  function Or(later: Option<int>, before: Option<int>): Option<int> {
    if later.Some? then later else before
  }

  lemma {:induction false} CountAtLine(lines: seq<CountLine>, k: nat)
    requires DistinctLines(lines) && k < |lines|
    ensures CountAt(lines, lines[k].product, lines[k].location) == lines[k].countedQty
  {
    if k > 0 {
      assert lines[0].product != lines[k].product || lines[0].location != lines[k].location;
      CountAtLine(lines[1..], k - 1);
    }
  }

  lemma {:induction false} CountAtHasLine(lines: seq<CountLine>, product: Id, location: Id)
    ensures CountAt(lines, product, location).Some? ==> HasLine(lines, product, location)
  {
    if lines != [] && !(lines[0].product == product && lines[0].location == location) {
      CountAtHasLine(lines[1..], product, location);
      if CountAt(lines, product, location).Some? {
        var k :| 0 <= k < |lines[1..]| && lines[1..][k].product == product && lines[1..][k].location == location;
        assert lines[k + 1] == lines[1..][k];
      }
    } else if lines != [] {
      assert lines[0].product == product;
    }
  }

  lemma {:induction false} SetCountSets(lines: seq<CountLine>, c: CountInput, product: Id, location: Id)
    ensures CountAt(SetCount(lines, c), product, location)
         == if IsOf(c, product, location) then Some(c.countedQty) else CountAt(lines, product, location)
  {
    if lines != [] {
      var after := SetCount(lines, c);
      if lines[0].product == c.product && lines[0].location == c.location {
        assert after[1..] == lines[1..];
      } else {
        SetCountSets(lines[1..], c, product, location);
        assert after[1..] == SetCount(lines[1..], c);
      }
    }
  }

  /** After an accepted capture each line it names holds the last quantity given for it, and no other changes. */
  lemma {:induction false} CaptureRecords(cat: Catalog, warehouse: Id, lines: seq<CountLine>, counts: seq<CountInput>,
                                          product: Id, location: Id)
    requires CaptureLines(cat, warehouse, lines, counts).Ok?
    ensures CountAt(CaptureLines(cat, warehouse, lines, counts).value, product, location)
         == Or(LastCount(counts, product, location), CountAt(lines, product, location))
    decreases |counts|
  {
    if counts != [] {
      SetCountSets(lines, counts[0], product, location);
      CaptureRecords(cat, warehouse, SetCount(lines, counts[0]), counts[1..], product, location);
    }
  }

  /** A capture is accepted exactly when no quantity is negative and each location is the warehouse's, and active. */
  lemma {:induction false} CaptureAccepts(cat: Catalog, warehouse: Id, lines: seq<CountLine>, counts: seq<CountInput>)
    ensures CaptureLines(cat, warehouse, lines, counts).Ok?
       <==> forall k :: 0 <= k < |counts| ==>
              counts[k].countedQty >= 0
              && exists i :: 0 <= i < |cat.locations| && cat.locations[i].id == counts[k].location
                             && cat.locations[i].warehouse == warehouse && cat.locations[i].active
    decreases |counts|
  {
    if counts != [] {
      CaptureAccepts(cat, warehouse, SetCount(lines, counts[0]), counts[1..]);
      assert forall k :: 0 < k < |counts| ==> counts[k] == counts[1..][k - 1];
      assert HasLocation(cat.locations, counts[0].location, warehouse)
        <==> exists i :: 0 <= i < |cat.locations| && cat.locations[i].id == counts[0].location
                         && cat.locations[i].warehouse == warehouse && cat.locations[i].active;
    }
  }

  // ----- the captures of a run -----

  /** What one call captures for count `id`, if it is accepted. */
  ghost function CapturedBy(h: Hotel, c: Call, id: Id, product: Id, location: Id): Option<int> {
    if c.op.Counts? && c.op.c.CaptureCounts? && c.op.c.id == id && Exec(h, c).Ok? then
      LastCount(c.op.c.counts, product, location)
    else None
  }

  /** The last quantity that the accepted captures of a run gave for a product and location. */
  ghost function Captured(h: Hotel, calls: seq<Call>, id: Id, product: Id, location: Id): Option<int>
    decreases |calls|
  {
    if calls == [] then None
    else
      Or(Captured(Step(h, calls[0]), calls[1..], id, product, location),
         CapturedBy(h, calls[0], id, product, location))
  }

  lemma CallRecords(h: Hotel, c: Call, id: Id, product: Id, location: Id)
    requires id < |h.stocktakes| && h.stocktakes[id].status != CountDraft
    ensures var after := Step(h, c).stocktakes;
      && id < |after| && after[id].status != CountDraft
      && CountAt(after[id].lines, product, location)
         == Or(CapturedBy(h, c, id, product, location), CountAt(h.stocktakes[id].lines, product, location))
  {
    if c.op.Counts? && Exec(h, c).Ok? {
      LinesOnlyCaptured(h, c.cat, c.at, c.op.c, id);
      if c.op.c.CaptureCounts? && c.op.c.id == id {
        var st := h.stocktakes[id];
        CaptureRecords(c.cat, st.warehouse, st.lines, c.op.c.counts, product, location);
      }
    } else {
      assert Step(h, c).stocktakes == h.stocktakes;
    }
  }

  lemma {:induction false} RunRecords(h: Hotel, calls: seq<Call>, id: Id, product: Id, location: Id)
    requires id < |h.stocktakes| && h.stocktakes[id].status != CountDraft
    ensures var later := Run(h, calls).stocktakes;
      && id < |later|
      && CountAt(later[id].lines, product, location)
         == Or(Captured(h, calls, id, product, location), CountAt(h.stocktakes[id].lines, product, location))
    decreases |calls|
  {
    if calls != [] {
      CallRecords(h, calls[0], id, product, location);
      RunRecords(Step(h, calls[0]), calls[1..], id, product, location);
    }
  }

  lemma {:induction false} PhotoCountsNothing(rows: seq<Row>, warehouse: Id, product: Id, location: Id)
    ensures CountAt(PhotoLines(rows, warehouse), product, location) == None
  {
    if rows != [] {
      PhotoCountsNothing(rows[1..], warehouse, product, location);
    }
  }

  /** The photo has a line for a product and location exactly when they have stock in the warehouse. */
  lemma PhotoExactly(rows: seq<Row>, warehouse: Id, product: Id, location: Id)
    requires Unique(rows)
    ensures HasLine(PhotoLines(rows, warehouse), product, location)
       <==> Qty(rows, Pos(product, warehouse, location)) > 0
  {
    if HasLine(PhotoLines(rows, warehouse), product, location) {
      var lines := PhotoLines(rows, warehouse);
      var k :| 0 <= k < |lines| && lines[k].product == product && lines[k].location == location;
      var i := PhotoLinesFrom(rows, warehouse, k);
      QtyOfRow(rows, i);
    } else {
      PhotoShowsStock(rows, warehouse);
    }
  }

  /** After any run since its start a count holds, on each line, the last quantity captured for it. */
  lemma LinesHoldCaptures(h: Hotel, clock: int, id: Id, start: Call, calls: seq<Call>)
    requires HotelInv(h, clock) && clock < start.at && Starts(start, h, id) && InOrder(start.at, calls)
    ensures var started := Exec(h, start).value;
      && id < |Run(started, calls).stocktakes|
      && var lines := Run(started, calls).stocktakes[id].lines;
      && (forall k :: 0 <= k < |lines| ==>
            lines[k].countedQty == Captured(started, calls, id, lines[k].product, lines[k].location))
      && (forall product, location ::
            Captured(started, calls, id, product, location).Some? ==> HasLine(lines, product, location))
  {
    CountInRun(h, clock, id, start, calls);
    var started := Exec(h, start).value;
    var lines := Run(started, calls).stocktakes[id].lines;
    forall product, location
      ensures CountAt(lines, product, location) == Captured(started, calls, id, product, location)
    {
      StartsUncounted(h, clock, id, start, product, location);
      RunRecords(started, calls, id, product, location);
    }
    forall k | 0 <= k < |lines|
      ensures lines[k].countedQty == Captured(started, calls, id, lines[k].product, lines[k].location)
    {
      CountAtLine(lines, k);
    }
    forall product, location | Captured(started, calls, id, product, location).Some?
      ensures HasLine(lines, product, location)
    {
      CountAtHasLine(lines, product, location);
    }
  }

  lemma StartsUncounted(h: Hotel, clock: int, id: Id, start: Call, product: Id, location: Id)
    requires HotelInv(h, clock) && Starts(start, h, id)
    ensures var started := Exec(h, start).value;
      && id < |started.stocktakes| && started.stocktakes[id].status != CountDraft
      && CountAt(started.stocktakes[id].lines, product, location) == None
  {
    var st := h.stocktakes[id];
    assert StocktakeOk(st, clock);
    assert st.lines + PhotoLines(h.ledger.stock, st.warehouse) == PhotoLines(h.ledger.stock, st.warehouse);
    PhotoCountsNothing(h.ledger.stock, st.warehouse, product, location);
  }

  /**
   * What a count does to stock, from the captures alone. Whatever runs between start and approval, the approval
   * leaves at each captured position the last quantity captured plus the movements older than the photo whose
   * active status changed since, and every other position as it was.
   */
  lemma CapturesBecomeStock(h: Hotel, clock: int, id: Id, start: Call, calls: seq<Call>, cat: Catalog, actor: Id,
                            own: bool, when: int, p: Pos)
    requires HotelInv(h, clock) && clock < start.at && Starts(start, h, id) && InOrder(start.at, calls)
    requires ApproveStocktake(Run(Exec(h, start).value, calls), cat, id, actor, own, when).Ok?
    ensures var started := Exec(h, start).value; var later := Run(started, calls);
      var after := ApproveStocktake(later, cat, id, actor, own, when).value.ledger.stock;
      var captured :=
        if p.warehouse == h.stocktakes[id].warehouse then Captured(started, calls, id, p.product, p.location) else None;
      && |h.ledger.movements| <= |later.ledger.movements|
      && Qty(after, p)
         == if captured.Some? then captured.value + Flipped(h.ledger.movements, later.ledger.movements, p)
            else Qty(later.ledger.stock, p)
  {
    var started := Exec(h, start).value;
    var later := Run(started, calls);
    var st := later.stocktakes[id];
    ApprovedCount(h, clock, id, start, calls, cat, actor, own, when);
    CountInRun(h, clock, id, start, calls);
    LinesHoldCaptures(h, clock, id, start, calls);
    if Counted(st, p) {
      var k :| 0 <= k < |st.lines| && PosOf(st.warehouse, st.lines[k]) == p;
      assert st.lines[k].countedQty.Some?;
    }
    LineIsCounted(st, p.product, p.location);
  }

  lemma LineIsCounted(st: Stocktake, product: Id, location: Id)
    ensures HasLine(st.lines, product, location) ==> Counted(st, Pos(product, st.warehouse, location))
  {
    if HasLine(st.lines, product, location) {
      var k :| 0 <= k < |st.lines| && st.lines[k].product == product && st.lines[k].location == location;
      assert PosOf(st.warehouse, st.lines[k]) == Pos(product, st.warehouse, location);
    }
  }

  /**
   * When no movement older than the photo changed its active status, the approval leaves at each captured
   * position the last quantity captured for it.
   */
  lemma UndisturbedCaptures(h: Hotel, clock: int, id: Id, start: Call, calls: seq<Call>, cat: Catalog, actor: Id,
                            own: bool, when: int, product: Id, location: Id)
    requires HotelInv(h, clock) && clock < start.at && Starts(start, h, id) && InOrder(start.at, calls)
    requires NoFlips(h.ledger.movements, Run(Exec(h, start).value, calls).ledger.movements)
    requires Captured(Exec(h, start).value, calls, id, product, location).Some?
    requires ApproveStocktake(Run(Exec(h, start).value, calls), cat, id, actor, own, when).Ok?
    ensures var started := Exec(h, start).value;
      var after := ApproveStocktake(Run(started, calls), cat, id, actor, own, when).value.ledger.stock;
      Some(Qty(after, Pos(product, h.stocktakes[id].warehouse, location)))
      == Captured(started, calls, id, product, location)
  {
    var p := Pos(product, h.stocktakes[id].warehouse, location);
    CapturesBecomeStock(h, clock, id, start, calls, cat, actor, own, when, p);
    NothingFlipped(h.ledger.movements, Run(Exec(h, start).value, calls).ledger.movements, p);
  }

  // ----- the life of a count -----

  predicate IsOpenCount(st: Stocktake) {
    st.status == CountDraft || st.status == Counting || st.status == CountPending
  }

  /** A count of an active warehouse is opened exactly when none is open there. */
  lemma OpensCountExactly(h: Hotel, cat: Catalog, warehouse: Id)
    ensures var r := CreateStocktake(h, cat, warehouse);
      && (r.Ok? <==>
            && (exists k :: 0 <= k < |cat.warehouses| && cat.warehouses[k].id == warehouse && cat.warehouses[k].active)
            && forall i :: 0 <= i < |h.stocktakes| && h.stocktakes[i].warehouse == warehouse ==>
                 !IsOpenCount(h.stocktakes[i]))
      && (r.Ok? ==> r.value == h.(stocktakes := h.stocktakes + [Stocktake(warehouse, CountDraft, None, None, [])]))
  {
  }

  /** When a call on a count is in order, but for what an approval posts. */
  predicate InOrderFor(cat: Catalog, st: Stocktake, op: CountOp) {
    match op
    case OpenCount(_) => false
    case StartCount(_) => st.status == CountDraft
    case CaptureCounts(_, counts) => st.status == Counting && CaptureLines(cat, st.warehouse, st.lines, counts).Ok?
    case CloseCount(_, _) =>
      st.status == Counting && forall k :: 0 <= k < |st.lines| ==> st.lines[k].countedQty.Some?
    case ApproveTheCount(_, actor, own) =>
      st.status == CountPending && st.snapshotAt.Some? && (own || st.closedBy != Some(actor))
    case CancelTheCount(_) => IsOpenCount(st)
  }

  /** The count an accepted call leaves. */
  predicate Advances(st: Stocktake, op: CountOp, at: int, after: Stocktake) {
    match op
    case OpenCount(_) => false
    case StartCount(_) => after == st.(status := Counting, snapshotAt := Some(at), lines := after.lines)
    case CaptureCounts(_, _) => after == st.(lines := after.lines)
    case CloseCount(_, actor) => after == st.(status := CountPending, closedBy := Some(actor))
    case ApproveTheCount(_, _, _) => after == st.(status := CountApplied)
    case CancelTheCount(_) => after == st.(status := CountCancelled)
  }

  /** The count a call is about; opening one is about none. */
  function About(op: CountOp): Option<Id> {
    match op
    case OpenCount(_) => None
    case StartCount(id) => Some(id)
    case CaptureCounts(id, _) => Some(id)
    case CloseCount(id, _) => Some(id)
    case ApproveTheCount(id, _, _) => Some(id)
    case CancelTheCount(id) => Some(id)
  }

  /**
   * A call on a count is accepted only when in order, and always then but for an approval, which may fail to post.
   * It moves that count on as its kind says, and leaves every other count, and but for an approval the ledger.
   */
  lemma CountAdvancesExactly(h: Hotel, cat: Catalog, at: int, op: CountOp, id: Id)
    requires About(op) == Some(id)
    ensures var r := ExecCount(h, cat, at, op);
      && (r.Ok? ==> id < |h.stocktakes| && InOrderFor(cat, h.stocktakes[id], op))
      && (id < |h.stocktakes| && InOrderFor(cat, h.stocktakes[id], op) && !op.ApproveTheCount? ==> r.Ok?)
      && (r.Ok? ==>
            && |r.value.stocktakes| == |h.stocktakes|
            && r.value == h.(ledger := r.value.ledger, stocktakes := h.stocktakes[id := r.value.stocktakes[id]])
            && Advances(h.stocktakes[id], op, at, r.value.stocktakes[id])
            && (!op.ApproveTheCount? ==> r.value.ledger == h.ledger))
  {
  }

  /** The movement carries what a count's approval found: an adjustment of its warehouse, in its name. */
  predicate IsAdjustmentOf(m: Movement, cat: Catalog, warehouse: Id, id: Id, at: int) {
    && m.status == Active && m.stocktake == Some(id) && m.createdAt == at && m.requestId.None?
    && m.reason == cat.countReason && cat.countReason.Some?
    && (m.kind == AdjustIn || m.kind == AdjustOut)
    && m.target == (if m.kind == AdjustIn then Some(warehouse) else None)
    && m.source == (if m.kind == AdjustOut then Some(warehouse) else None)
  }

  /** At most one adjustment inwards and one outwards have been added, both in the count's name. */
  ghost predicate AddsAdjustments(before: seq<Movement>, after: seq<Movement>, cat: Catalog, warehouse: Id, id: Id,
                                  at: int)
  {
    && before <= after && |after| <= |before| + 2
    && (forall k :: |before| <= k < |after| ==> IsAdjustmentOf(after[k], cat, warehouse, id, at))
    && (forall j, k :: |before| <= j < k < |after| ==> after[j].kind == AdjustIn && after[k].kind == AdjustOut)
  }

  /** That is all an approval adds to the log. */
  lemma ApprovalPosts(h: Hotel, cat: Catalog, id: Id, actor: Id, own: bool, at: int)
    requires ApproveStocktake(h, cat, id, actor, own, at).Ok?
    ensures AddsAdjustments(h.ledger.movements, ApproveStocktake(h, cat, id, actor, own, at).value.ledger.movements,
                            cat, h.stocktakes[id].warehouse, id, at)
  {
    var st := h.stocktakes[id];
    var rows := Adjustments(st.warehouse, Since(h.ledger.movements, st.warehouse, st.snapshotAt.value), st.lines);
    CountPosts(h.ledger, cat, st.warehouse, id, rows, at);
  }

  lemma CountPosts(l: Ledger, cat: Catalog, warehouse: Id, id: Id, rows: seq<Adjustment>, at: int)
    requires PostAdjustments(l, cat, warehouse, id, rows, at).Ok?
    ensures AddsAdjustments(l.movements, PostAdjustments(l, cat, warehouse, id, rows, at).value.movements,
                            cat, warehouse, id, at)
  {
    if (Upward(rows) != [] || Downward(rows) != []) && cat.countReason.Some? {
      var reason := cat.countReason.value;
      var l1 := PostAdjustment(l, cat, AdjustIn, warehouse, reason, id, Upward(rows), at).value;
      OneAdjustmentPosts(l, cat, AdjustIn, warehouse, id, Upward(rows), at);
      OneAdjustmentPosts(l1, cat, AdjustOut, warehouse, id, Downward(rows), at);
    }
  }

  lemma OneAdjustmentPosts(l: Ledger, cat: Catalog, kind: MovementType, warehouse: Id, id: Id, rows: seq<Adjustment>,
                           at: int)
    requires (kind == AdjustIn || kind == AdjustOut) && cat.countReason.Some?
    requires PostAdjustment(l, cat, kind, warehouse, cat.countReason.value, id, rows, at).Ok?
    ensures var after := PostAdjustment(l, cat, kind, warehouse, cat.countReason.value, id, rows, at).value.movements;
      || after == l.movements
      || (after == l.movements + [after[|after| - 1]] && after[|after| - 1].kind == kind
          && IsAdjustmentOf(after[|after| - 1], cat, warehouse, id, at))
  {
  }

  /** The count is closed by `actor`, and no longer counted. */
  predicate ClosedBy(stocktakes: seq<Stocktake>, id: Id, actor: Id) {
    && id < |stocktakes| && stocktakes[id].closedBy == Some(actor)
    && stocktakes[id].status != CountDraft && stocktakes[id].status != Counting
  }

  lemma CallKeepsCloser(h: Hotel, c: Call, id: Id, actor: Id)
    requires ClosedBy(h.stocktakes, id, actor)
    ensures ClosedBy(Step(h, c).stocktakes, id, actor)
  {
    if c.op.Counts? && Exec(h, c).Ok? {
      if About(c.op.c).Some? {
        CountAdvancesExactly(h, c.cat, c.at, c.op.c, About(c.op.c).value);
      }
    } else {
      assert Step(h, c).stocktakes == h.stocktakes;
    }
  }

  lemma {:induction false} RunKeepsCloser(h: Hotel, calls: seq<Call>, id: Id, actor: Id)
    requires ClosedBy(h.stocktakes, id, actor)
    ensures ClosedBy(Run(h, calls).stocktakes, id, actor)
    decreases |calls|
  {
    if calls != [] {
      CallKeepsCloser(h, calls[0], id, actor);
      RunKeepsCloser(Step(h, calls[0]), calls[1..], id, actor);
    }
  }

  /** Whoever closed a count cannot approve it without permission to do so, whatever ran in between. */
  lemma FourEyes(h: Hotel, close: Call, calls: seq<Call>, id: Id, actor: Id, cat: Catalog, at: int)
    requires close.op == Counts(CloseCount(id, actor)) && Exec(h, close).Ok?
    ensures ApproveStocktake(Run(Step(h, close), calls), cat, id, actor, false, at).Err?
  {
    CountAdvancesExactly(h, close.cat, close.at, close.op.c, id);
    RunKeepsCloser(Step(h, close), calls, id, actor);
    var later := Run(Step(h, close), calls);
    CountAdvancesExactly(later, cat, at, ApproveTheCount(id, actor, false), id);
  }
}
