/** Whole runs of the hotel store, from an empty database or from any state a run has reached. */
module RunLaws {
  import opened Common
  import opened Stock
  import opened Kardex
  import opened Catalog
  import opened Ledger
  import opened HotelState
  import opened Stocktakes
  import opened StocktakeLaws
  import opened Housekeeping
  import opened HotelRuns
  import opened HotelLaws
  import opened TaskLaws

  ghost predicate HotelInv(h: Hotel, clock: int) {
    && LedgerInv(h.ledger, clock)
    && StocktakesInv(h.stocktakes, clock)
    && TasksInv(h.ledger.movements, h.tasks)
    && RoomsInv(h.rooms)
  }

  lemma StepKeeps(h: Hotel, c: Call, clock: int)
    requires HotelInv(h, clock) && clock < c.at
    ensures HotelInv(Step(h, c), c.at)
  {
    ExecKeepsLedger(h, c, clock);
    ExecKeepsStocktakes(h, c, clock);
    ExecKeepsTasks(h, c, clock);
    ExecKeepsRooms(h, c);
  }

  lemma {:induction false} RunKeeps(h: Hotel, clock: int, calls: seq<Call>)
    requires HotelInv(h, clock) && InOrder(clock, calls)
    ensures HotelInv(Run(h, calls), ClockAfter(clock, calls))
    decreases |calls|
  {
    if calls != [] {
      StepKeeps(h, calls[0], clock);
      RunKeeps(Step(h, calls[0]), calls[0].at, calls[1..]);
    }
  }

  /**
   * In every state any run of calls reaches from the empty database: stock is never negative, every
   * position and every product's hotel-wide stock is the signed sum of the active movements, and what
   * task movements took of a product is what finished tasks list of it.
   */
  lemma ReachableStates(clock: int, calls: seq<Call>)
    requires InOrder(clock, calls)
    ensures var h := Run(EMPTY, calls);
      && (forall p :: Qty(h.ledger.stock, p) == ActiveNet(h.ledger.movements, p) >= 0)
      && (forall product :: Total(h.ledger.stock, product) == ActiveTotal(h.ledger.movements, product))
      && (forall product :: Consumed(h.ledger.movements, product) == FinishedTotal(h.tasks, product))
      && (forall i :: 0 <= i < |h.ledger.movements| && !IsCancellable(h.ledger.movements[i].kind)
            ==> h.ledger.movements[i].status == Active)
      && (forall i :: 0 <= i < |h.rooms| ==> Chained(h.rooms[i]))
      && OneOpenCount(h.stocktakes)
      && HotelInv(h, ClockAfter(clock, calls))
  {
    RunKeeps(EMPTY, clock, calls);
    var h := Run(EMPTY, calls);
    forall p ensures Qty(h.ledger.stock, p) == ActiveNet(h.ledger.movements, p) >= 0 {
      QtyNonNegative(h.ledger.stock, p);
    }
  }

  // ----- what a run leaves of what was there -----

  lemma {:induction false} RunContinues(h: Hotel, clock: int, calls: seq<Call>)
    requires HotelInv(h, clock) && InOrder(clock, calls)
    ensures ContinuesAfter(h.ledger.movements, Run(h, calls).ledger.movements, clock)
    ensures TasksStep(h.tasks, Run(h, calls).tasks)
    decreases |calls|
  {
    if calls != [] {
      var c := calls[0];
      var next, last := Step(h, c), Run(h, calls);
      StepKeeps(h, c, clock);
      ExecKeepsLedger(h, c, clock);
      ExecTasksStep(h, c);
      RunContinues(next, c.at, calls[1..]);
      ExtendsTransitive(h.ledger.movements, next.ledger.movements, last.ledger.movements);
      forall i | |h.ledger.movements| <= i < |last.ledger.movements|
        ensures last.ledger.movements[i].createdAt > clock
      {
        if i < |next.ledger.movements| {
          assert SameMovement(next.ledger.movements[i], last.ledger.movements[i]);
        }
      }
      forall i | 0 <= i < |h.tasks| ensures TaskStep(h.tasks[i], last.tasks[i]) {
        assert TaskStep(h.tasks[i], next.tasks[i]) && TaskStep(next.tasks[i], last.tasks[i]);
      }
    }
  }

  /** A movement's moves are the same at any later time. */
  lemma SameMoves(before: Movement, after: Movement)
    requires SameMovement(before, after)
    ensures MovesOf(after) == MovesOf(before)
  {
    StatusKeepsMoves(before, after.status, before.lines);
  }

  /**
   * Posting with a request key answers with the same movement for ever, and writes nothing: after any
   * run, the same key returns the first movement and the ledger as it is, whatever the request says.
   */
  lemma RequestKeyPostsOnce(h: Hotel, clock: int, key: Id, cat: Catalog, i: MovementInput, at: int, calls: seq<Call>,
                            cat': Catalog, i': MovementInput, at': int)
    requires HotelInv(h, clock) && clock < at && Post(h.ledger, cat, i, Some(key), at).Ok?
    requires InOrder(at, calls) && IsApiType(i'.kind)
    ensures var posted := Post(h.ledger, cat, i, Some(key), at).value;
      var later := Run(h.(ledger := posted.ledger), calls);
      Post(later.ledger, cat', i', Some(key), at') == Ok(Posted(later.ledger, posted.id))
  {
    var c := Call(at, cat, Movements(PostMovement(i, Some(key))));
    var posted := Post(h.ledger, cat, i, Some(key), at).value;
    assert Step(h, c) == h.(ledger := posted.ledger);
    StepKeeps(h, c, clock);
    ByRequestFinds(h.ledger.movements, key);
    assert posted.ledger.movements[posted.id].requestId == Some(key);
    RunKeeps(Step(h, c), at, calls);
    RunContinues(Step(h, c), at, calls);
    var later := Run(Step(h, c), calls);
    assert SameMovement(posted.ledger.movements[posted.id], later.ledger.movements[posted.id]);
    ByRequestFinds(later.ledger.movements, key);
    var found := ByRequest(later.ledger.movements, key).value;
    assert found == posted.id;
  }

  /**
   * Cancelling takes back exactly what posting did, whatever ran in between: stock after is stock
   * before minus what the posting had added.
   */
  lemma CancelUndoesPost(h: Hotel, clock: int, cat: Catalog, i: MovementInput, requestId: Option<Id>, at: int,
                         calls: seq<Call>, p: Pos)
    requires HotelInv(h, clock) && clock < at && InOrder(at, calls)
    requires Post(h.ledger, cat, i, requestId, at).Ok?
    requires var posted := Post(h.ledger, cat, i, requestId, at).value;
      posted.id == |h.ledger.movements| < |posted.ledger.movements|
      && posted.ledger.movements[posted.id].status == Active
      && Cancel(Run(h.(ledger := posted.ledger), calls).ledger, posted.id).Ok?
    ensures var posted := Post(h.ledger, cat, i, requestId, at).value;
      var later := Run(h.(ledger := posted.ledger), calls).ledger;
      Qty(Cancel(later, posted.id).value.stock, p)
      == Qty(later.stock, p) - (Qty(posted.ledger.stock, p) - Qty(h.ledger.stock, p))
  {
    var c := Call(at, cat, Movements(PostMovement(i, requestId)));
    var posted := Post(h.ledger, cat, i, requestId, at).value;
    assert Step(h, c) == h.(ledger := posted.ledger);
    StepKeeps(h, c, clock);
    if requestId.Some? {
      ByRequestFinds(h.ledger.movements, requestId.value);
    }
    var m := Draft(cat, i, requestId, at).value;
    assert posted.ledger.movements[posted.id] == m;
    ApplyMovesNet(h.ledger.stock, MovesOf(m));
    RunContinues(Step(h, c), at, calls);
    var later := Run(Step(h, c), calls).ledger;
    SameMoves(m, later.movements[posted.id]);
    NegateNet(MovesOf(m));
    ApplyMovesNet(later.stock, Negate(MovesOf(m)));
  }

  /**
   * A task consumes once: after any later run, finishing it again succeeds and changes nothing, and its
   * lines and its movements are the ones of the first finish.
   */
  lemma FinishConsumesOnce(h: Hotel, clock: int, c: Call, calls: seq<Call>, cat': Catalog, actor': Id,
                           manage': bool, at': int)
    requires HotelInv(h, clock) && clock < c.at && InOrder(c.at, calls)
    requires IsFinish(c.op) && Exec(h, c).Ok?
    ensures var id := c.op.t.id;
      var first, later := Exec(h, c).value, Run(Exec(h, c).value, calls);
      && id < |first.tasks| <= |later.tasks|
      && FinishTask(later, cat', id, actor', manage', at') == Ok(later)
      && later.tasks[id] == first.tasks[id].(inspected := later.tasks[id].inspected)
      && Accounted(later.ledger.movements, later.tasks[id])
  {
    var id := c.op.t.id;
    StepKeeps(h, c, clock);
    RunKeeps(Step(h, c), c.at, calls);
    RunContinues(Step(h, c), c.at, calls);
    assert TaskStep(Step(h, c).tasks[id], Run(Step(h, c), calls).tasks[id]);
  }

  /**
   * A product that a kit lists every N days only: once a finished task has used it in a room, a stay of the
   * same room less than N days later gets no kit line for it, whatever ran in between.
   */
  lemma StayWaitsForFrequency(h: Hotel, clock: int, c: Call, calls: seq<Call>, kit: seq<KitLine>, product: Id,
                              days: int, now: int)
    requires HotelInv(h, clock) && clock < c.at && InOrder(c.at, calls)
    requires FirstFinish(h, c) && HasProduct(h.tasks[c.op.t.id].lines, product)
    requires forall k :: 0 <= k < |kit| && kit[k].product == product ==>
               kit[k].frequency == EveryNDays && kit[k].everyNDays == Some(days)
    requires now - c.at < days * MS_PER_DAY
    ensures !HasProduct(KitLines(kit, Run(Step(h, c), calls).tasks, h.tasks[c.op.t.id].room, Stay, now), product)
  {
    var id, room := c.op.t.id, h.tasks[c.op.t.id].room;
    var later := Run(Step(h, c), calls).tasks;
    StepKeeps(h, c, clock);
    UseStays(Step(h, c), c.at, calls, id, room, product, c.at);
    RecentUseBlocks(kit, later, id, room, product, c.at, days, now);
  }

  /** A finished task goes on having used its products, at its time, for ever. */
  lemma UseStays(h: Hotel, clock: int, calls: seq<Call>, id: Id, room: Id, product: Id, used: int)
    requires HotelInv(h, clock) && InOrder(clock, calls)
    requires id < |h.tasks| && UsedAt(h.tasks[id], room, product) == Some(used)
    ensures var later := Run(h, calls).tasks; id < |later| && UsedAt(later[id], room, product) == Some(used)
  {
    RunContinues(h, clock, calls);
    assert TaskStep(h.tasks[id], Run(h, calls).tasks[id]);
  }

  // ----- a count over a run -----

  lemma PhotoSurvivesCall(photo: Ledger, snapshotAt: int, h: Hotel, id: Id, c: Call, clock: int)
    requires HotelInv(h, clock) && snapshotAt <= clock < c.at
    requires Photographed(photo, snapshotAt, h, id)
    ensures Photographed(photo, snapshotAt, Step(h, c), id)
  {
    ExecKeepsLedger(h, c, clock);
    ExtendsTransitive(photo.movements, h.ledger.movements, Step(h, c).ledger.movements);
    var before, after := h.ledger.movements, Step(h, c).ledger.movements;
    forall i | |photo.movements| <= i < |after| ensures after[i].createdAt > snapshotAt {
      if i < |before| {
        assert SameMovement(before[i], after[i]);
      }
    }
    PhotoLinesSurviveCall(photo, snapshotAt, h, id, c);
  }

  /** Only a capture changes the lines of a started count. */
  lemma LinesOnlyCaptured(h: Hotel, cat: Catalog, at: int, op: CountOp, id: Id)
    requires ExecCount(h, cat, at, op).Ok? && id < |h.stocktakes| && h.stocktakes[id].status != CountDraft
    ensures var after := ExecCount(h, cat, at, op).value.stocktakes;
      && id < |after| && after[id].warehouse == h.stocktakes[id].warehouse
      && after[id].snapshotAt == h.stocktakes[id].snapshotAt && after[id].status != CountDraft
      && (!(op.CaptureCounts? && op.id == id) ==> after[id].lines == h.stocktakes[id].lines)
  {
  }

  lemma PhotoLinesSurviveCall(photo: Ledger, snapshotAt: int, h: Hotel, id: Id, c: Call)
    requires Photographed(photo, snapshotAt, h, id)
    ensures id < |Step(h, c).stocktakes|
    ensures var st, after := h.stocktakes[id], Step(h, c).stocktakes[id];
      && after.warehouse == st.warehouse && after.snapshotAt == st.snapshotAt && after.status != CountDraft
      && ShowsStock(after.lines, after.warehouse, photo.stock)
  {
    if c.op.Counts? && Exec(h, c).Ok? {
      var st, op := h.stocktakes[id], c.op.c;
      LinesOnlyCaptured(h, c.cat, c.at, op, id);
      if op.CaptureCounts? && op.id == id {
        CaptureShowsStock(c.cat, st.lines, op.counts, st.warehouse, photo.stock);
      }
    } else {
      assert Step(h, c).stocktakes == h.stocktakes;
    }
  }

  lemma {:induction false} PhotoSurvivesRun(photo: Ledger, snapshotAt: int, h: Hotel, id: Id, clock: int,
                                            calls: seq<Call>)
    requires HotelInv(h, clock) && snapshotAt <= clock && InOrder(clock, calls)
    requires Photographed(photo, snapshotAt, h, id)
    ensures Photographed(photo, snapshotAt, Run(h, calls), id)
    decreases |calls|
  {
    if calls != [] {
      PhotoSurvivesCall(photo, snapshotAt, h, id, calls[0], clock);
      StepKeeps(h, calls[0], clock);
      PhotoSurvivesRun(photo, snapshotAt, Step(h, calls[0]), id, calls[0].at, calls[1..]);
    }
  }

  /** The call `start` takes the photo of count `id` in state `h`. */
  ghost predicate Starts(start: Call, h: Hotel, id: Id) {
    start.op == Counts(StartCount(id)) && Exec(h, start).Ok?
  }

  lemma CountInRun(h: Hotel, clock: int, id: Id, start: Call, calls: seq<Call>)
    requires HotelInv(h, clock) && clock < start.at && Starts(start, h, id) && InOrder(start.at, calls)
    ensures var later := Run(Exec(h, start).value, calls);
      && Photographed(h.ledger, start.at, later, id)
      && HotelInv(later, ClockAfter(start.at, calls))
      && later.stocktakes[id].warehouse == h.stocktakes[id].warehouse
  {
    StartPhotographs(h, clock, id, start.at);
    StepKeeps(h, start, clock);
    PhotoSurvivesRun(h.ledger, start.at, Step(h, start), id, start.at, calls);
    RunKeeps(Step(h, start), start.at, calls);
    WarehouseStays(Step(h, start), start.at, id, calls);
  }

  lemma {:induction false} WarehouseStays(h: Hotel, clock: int, id: Id, calls: seq<Call>)
    requires HotelInv(h, clock) && InOrder(clock, calls) && id < |h.stocktakes|
    ensures id < |Run(h, calls).stocktakes| && Run(h, calls).stocktakes[id].warehouse == h.stocktakes[id].warehouse
    decreases |calls|
  {
    if calls != [] {
      StepKeeps(h, calls[0], clock);
      ExecKeepsStocktakes(h, calls[0], clock);
      assert StocktakeStep(h.stocktakes[id], Step(h, calls[0]).stocktakes[id]);
      WarehouseStays(Step(h, calls[0]), calls[0].at, id, calls[1..]);
    }
  }

  /**
   * Every line of a count shows the stock at photo time, the lines captured later and created with
   * zero included, and every position of the warehouse that was stocked then has its line.
   */
  lemma LinesShowThePhoto(h: Hotel, clock: int, id: Id, start: Call, calls: seq<Call>)
    requires HotelInv(h, clock) && clock < start.at && Starts(start, h, id) && InOrder(start.at, calls)
    ensures var later := Run(Exec(h, start).value, calls);
      && id < |later.stocktakes|
      && ShowsStock(later.stocktakes[id].lines, h.stocktakes[id].warehouse, h.ledger.stock)
  {
    CountInRun(h, clock, id, start, calls);
  }

  /**
   * What approving a count means, whatever ran since its photo. If it succeeds, stock at every counted
   * position is exactly the count plus the signed sum of the movements older than the photo whose
   * active status changed since, and other positions are untouched; it is refused for lack of stock
   * only if that sum takes some count below zero.
   */
  lemma ApprovedCount(h: Hotel, clock: int, id: Id, start: Call, calls: seq<Call>, cat: Catalog, actor: Id,
                      own: bool, when: int)
    requires HotelInv(h, clock) && clock < start.at && Starts(start, h, id) && InOrder(start.at, calls)
    ensures var later := Run(Exec(h, start).value, calls);
      var r := ApproveStocktake(later, cat, id, actor, own, when);
      && Photographed(h.ledger, start.at, later, id)
      && var st := later.stocktakes[id];
      && (r.Ok? ==>
            && AllCounted(st.lines)
            && (forall k :: 0 <= k < |st.lines| ==>
                  Qty(r.value.ledger.stock, PosOf(st.warehouse, st.lines[k]))
                      == CountedAndFlipped(h.ledger, later, st, k) >= 0)
            && (forall p :: !Counted(st, p) ==> Qty(r.value.ledger.stock, p) == Qty(later.ledger.stock, p)))
      && (r.Err? && r.error.StockInsufficient? ==>
            exists k :: 0 <= k < |st.lines| && CountedAndFlipped(h.ledger, later, st, k) < 0)
  {
    CountInRun(h, clock, id, start, calls);
    var later := Run(Exec(h, start).value, calls);
    var r := ApproveStocktake(later, cat, id, actor, own, when);
    if r.Ok? {
      assert StocktakeOk(later.stocktakes[id], ClockAfter(start.at, calls));
      ApprovalLeavesCounts(h.ledger, start.at, later, ClockAfter(start.at, calls), cat, id, actor, own, when);
    } else if r.error.StockInsufficient? {
      ApprovalShortOnlyByFlips(h.ledger, start.at, later, ClockAfter(start.at, calls), cat, id, actor, own, when);
    }
  }

  /** No movement older than the photo became active or stopped being so. */
  ghost predicate NoFlips(before: seq<Movement>, now: seq<Movement>) {
    && |before| <= |now|
    && forall i :: 0 <= i < |before| ==> (before[i].status == Active <==> now[i].status == Active)
  }

  /**
   * When no movement older than the photo changed its active status, an approval leaves every counted
   * position exactly at its count and is never refused for lack of stock.
   */
  lemma UndisturbedCount(h: Hotel, clock: int, id: Id, start: Call, calls: seq<Call>, cat: Catalog, actor: Id,
                         own: bool, when: int)
    requires HotelInv(h, clock) && clock < start.at && Starts(start, h, id) && InOrder(start.at, calls)
    requires NoFlips(h.ledger.movements, Run(Exec(h, start).value, calls).ledger.movements)
    ensures var later := Run(Exec(h, start).value, calls);
      var r := ApproveStocktake(later, cat, id, actor, own, when);
      && id < |later.stocktakes|
      && var st := later.stocktakes[id];
      && (r.Ok? ==> forall k :: 0 <= k < |st.lines| ==>
            st.lines[k].countedQty == Some(Qty(r.value.ledger.stock, PosOf(st.warehouse, st.lines[k]))))
      && !(r.Err? && r.error.StockInsufficient?)
  {
    ApprovedCount(h, clock, id, start, calls, cat, actor, own, when);
    CountInRun(h, clock, id, start, calls);
    var later := Run(Exec(h, start).value, calls);
    var st := later.stocktakes[id];
    assert StocktakeOk(st, ClockAfter(start.at, calls));
    forall k | 0 <= k < |st.lines|
      ensures CountedAndFlipped(h.ledger, later, st, k) == CountedOf(st.lines[k]) >= 0
    {
      NothingFlipped(h.ledger.movements, later.ledger.movements, PosOf(st.warehouse, st.lines[k]));
    }
  }
}
