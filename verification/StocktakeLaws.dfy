/** What a count means: the photo it keeps, and the stock its approval leaves. */
module StocktakeLaws {
  import opened Common
  import opened Stock
  import opened Kardex
  import opened Catalog
  import opened Ledger
  import opened HotelState
  import opened Stocktakes

  // ----- the movement log only grows, and movements only change status -----

  predicate StatusStep(before: MovementStatus, after: MovementStatus) {
    match before
    case PendingApproval => true
    case Active => after != PendingApproval
    case Cancelled => after == Cancelled
  }

  predicate SameMovement(before: Movement, after: Movement) {
    after == before.(status := after.status) && StatusStep(before.status, after.status)
  }

  ghost predicate Extends(before: seq<Movement>, after: seq<Movement>) {
    && |before| <= |after|
    && forall i :: 0 <= i < |before| ==> SameMovement(before[i], after[i])
  }

  /** `after` continues `before`, and what it adds was created later than `at`. */
  ghost predicate ContinuesAfter(before: seq<Movement>, after: seq<Movement>, at: int) {
    && Extends(before, after)
    && forall i :: |before| <= i < |after| ==> after[i].createdAt > at
  }

  /** What `m` adds at `p` by having become active, or takes away by no longer being so. */
  function Flip(before: Movement, now: Movement, p: Pos): int {
    if now.status == Active && before.status != Active then Net(MovesOf(now), p)
    else if before.status == Active && now.status != Active then -Net(MovesOf(now), p)
    else 0
  }

  /** Signed sum, at `p`, of the movements of `before` that became active or stopped being so. */
  function Flipped(before: seq<Movement>, now: seq<Movement>, p: Pos): int
    requires |before| <= |now|
  {
    if before == [] then 0 else Flip(before[0], now[0], p) + Flipped(before[1..], now[1..], p)
  }

  lemma {:induction false} NothingFlipped(before: seq<Movement>, now: seq<Movement>, p: Pos)
    requires |before| <= |now|
    requires forall i :: 0 <= i < |before| ==> (before[i].status == Active <==> now[i].status == Active)
    ensures Flipped(before, now, p) == 0
  {
    if before != [] {
      NothingFlipped(before[1..], now[1..], p);
    }
  }

  lemma {:induction false} FlippedIsChange(before: seq<Movement>, now: seq<Movement>, p: Pos)
    requires Extends(before, now)
    ensures ActiveNet(now[..|before|], p) == ActiveNet(before, p) + Flipped(before, now, p)
  {
    if before != [] {
      FlippedIsChange(before[1..], now[1..], p);
      assert now[..|before|][1..] == now[1..][..|before| - 1];
      assert SameMovement(before[0], now[0]);
      StatusKeepsMoves(before[0], now[0].status, before[0].lines);
    }
  }

  lemma {:induction false} ElsewhereIsZero(m: Movement, lines: seq<Line>, p: Pos)
    requires m.source != Some(p.warehouse) && m.target != Some(p.warehouse)
    ensures Net(MovesOfLines(m, lines), p) == 0
  {
    if lines != [] {
      ElsewhereIsZero(m, lines[1..], p);
      NetSplit(TakeOut(m, lines[0]) + PutIn(m, lines[0]), MovesOfLines(m, lines[1..]), p);
      NetSplit(TakeOut(m, lines[0]), PutIn(m, lines[0]), p);
    }
  }

  lemma {:induction false} SinceNet(movements: seq<Movement>, n: nat, warehouse: Id, snapshotAt: int, p: Pos)
    requires n <= |movements| && p.warehouse == warehouse
    requires forall i :: 0 <= i < n ==> movements[i].createdAt <= snapshotAt
    requires forall i :: n <= i < |movements| ==> movements[i].createdAt > snapshotAt
    ensures LedgerNet(Since(movements, warehouse, snapshotAt), p) == ActiveNet(movements[n..], p)
  {
    if movements != [] {
      SinceNet(movements[1..], if n == 0 then 0 else n - 1, warehouse, snapshotAt, p);
      if n == 0 {
        ElsewhereOrSince(movements[0], warehouse, snapshotAt, p);
        assert movements[1..][0..] == movements[1..];
        if CountsAsSince(movements[0], warehouse, snapshotAt) {
          assert Since(movements, warehouse, snapshotAt)[1..] == Since(movements[1..], warehouse, snapshotAt);
        }
      } else {
        assert movements[1..][n - 1..] == movements[n..];
      }
    }
  }

  lemma ElsewhereOrSince(m: Movement, warehouse: Id, snapshotAt: int, p: Pos)
    requires p.warehouse == warehouse && m.createdAt > snapshotAt
    ensures Contribution(m, p) == if CountsAsSince(m, warehouse, snapshotAt) then Net(MovesOf(m), p) else 0
  {
    if m.source != Some(warehouse) && m.target != Some(warehouse) {
      ElsewhereIsZero(m, m.lines, p);
    }
  }

  // ----- the photo -----

  ghost predicate DistinctLines(lines: seq<CountLine>) {
    forall i, j :: 0 <= i < j < |lines|
        ==> lines[i].product != lines[j].product || lines[i].location != lines[j].location
  }

  ghost predicate HasLine(lines: seq<CountLine>, product: Id, location: Id) {
    exists k :: 0 <= k < |lines| && lines[k].product == product && lines[k].location == location
  }

  /** Every line shows the photographed stock of its position, and no stocked position is missing. */
  ghost predicate ShowsStock(lines: seq<CountLine>, warehouse: Id, photo: seq<Row>) {
    && DistinctLines(lines)
    && (forall k :: 0 <= k < |lines| ==> lines[k].systemQty == Qty(photo, PosOf(warehouse, lines[k])))
    && (forall product, location ::
          Qty(photo, Pos(product, warehouse, location)) > 0 ==> HasLine(lines, product, location))
  }

  /** `photo` is the ledger the started count `id` photographed at `snapshotAt`. */
  ghost predicate Photographed(photo: Ledger, snapshotAt: int, h: Hotel, id: Id) {
    && id < |h.stocktakes|
    && h.stocktakes[id].status != CountDraft
    && h.stocktakes[id].snapshotAt == Some(snapshotAt)
    && LedgerInv(photo, snapshotAt)
    && ContinuesAfter(photo.movements, h.ledger.movements, snapshotAt)
    && ShowsStock(h.stocktakes[id].lines, h.stocktakes[id].warehouse, photo.stock)
  }

  lemma {:induction false} PhotoLinesFrom(rows: seq<Row>, warehouse: Id, k: nat) returns (i: nat)
    requires k < |PhotoLines(rows, warehouse)|
    ensures i < |rows| && rows[i].pos == PosOf(warehouse, PhotoLines(rows, warehouse)[k])
    ensures rows[i].quantity == PhotoLines(rows, warehouse)[k].systemQty && rows[i].quantity > 0
  {
    if rows[0].pos.warehouse == warehouse && rows[0].quantity > 0 {
      if k == 0 {
        i := 0;
      } else {
        var j := PhotoLinesFrom(rows[1..], warehouse, k - 1);
        i := j + 1;
      }
    } else {
      var j := PhotoLinesFrom(rows[1..], warehouse, k);
      i := j + 1;
    }
  }

  lemma {:induction false} PhotoShowsStock(rows: seq<Row>, warehouse: Id)
    requires Unique(rows)
    ensures ShowsStock(PhotoLines(rows, warehouse), warehouse, rows)
  {
    var lines := PhotoLines(rows, warehouse);
    if rows != [] {
      PhotoShowsStock(rows[1..], warehouse);
      var rest := PhotoLines(rows[1..], warehouse);
      var offset := |lines| - |rest|;
      forall k | 0 <= k < |rest|
        ensures lines[k + offset] == rest[k]
        ensures PosOf(warehouse, rest[k]) != rows[0].pos
        ensures Qty(rows, PosOf(warehouse, rest[k])) == rest[k].systemQty
      {
        var i := PhotoLinesFrom(rows[1..], warehouse, k);
        assert rows[0].pos != rows[1 + i].pos;
      }
      forall k | 0 <= k < |lines|
        ensures lines[k].systemQty == Qty(rows, PosOf(warehouse, lines[k]))
      {
        if k >= offset {
          assert lines[k] == rest[k - offset];
        }
      }
      forall i, j | 0 <= i < j < |lines|
        ensures lines[i].product != lines[j].product || lines[i].location != lines[j].location
      {
        assert lines[j] == rest[j - offset];
        if i >= offset {
          assert lines[i] == rest[i - offset];
        }
      }
      forall product, location | Qty(rows, Pos(product, warehouse, location)) > 0
        ensures HasLine(lines, product, location)
      {
        if rows[0].pos == Pos(product, warehouse, location) {
          assert lines[0].product == product;
        } else {
          assert HasLine(rest, product, location);
          var k :| 0 <= k < |rest| && rest[k].product == product && rest[k].location == location;
          assert lines[k + offset] == rest[k];
        }
      }
    }
  }

  /** Recording a count changes no photographed quantity; a line added later starts at zero. */
  lemma {:induction false} SetCountLines(lines: seq<CountLine>, c: CountInput)
    ensures var after := SetCount(lines, c);
      && |lines| <= |after| <= |lines| + 1
      && (forall k :: 0 <= k < |lines| ==> after[k] == lines[k].(countedQty := after[k].countedQty))
      && (|after| == |lines| + 1 ==>
            !HasLine(lines, c.product, c.location)
            && after[|lines|] == CountLine(c.product, c.location, 0, Some(c.countedQty)))
  {
    if lines != [] && !(lines[0].product == c.product && lines[0].location == c.location) {
      SetCountLines(lines[1..], c);
      if |SetCount(lines, c)| == |lines| + 1 {
        forall k | 0 <= k < |lines| ensures !(lines[k].product == c.product && lines[k].location == c.location) {
          if k > 0 {
            assert lines[1..][k - 1] == lines[k];
          }
        }
      }
    }
  }

  lemma SetCountShowsStock(lines: seq<CountLine>, c: CountInput, warehouse: Id, photo: seq<Row>)
    requires ShowsStock(lines, warehouse, photo) && NonNegative(photo)
    ensures ShowsStock(SetCount(lines, c), warehouse, photo)
  {
    SetCountLines(lines, c);
    var after := SetCount(lines, c);
    if |after| == |lines| + 1 {
      QtyNonNegative(photo, Pos(c.product, warehouse, c.location));
      assert Qty(photo, Pos(c.product, warehouse, c.location)) == 0;
    }
    forall product, location | Qty(photo, Pos(product, warehouse, location)) > 0
      ensures HasLine(after, product, location)
    {
      var k :| 0 <= k < |lines| && lines[k].product == product && lines[k].location == location;
      assert after[k].product == product && after[k].location == location;
    }
  }

  lemma {:induction false} CaptureShowsStock(cat: Catalog, lines: seq<CountLine>, counts: seq<CountInput>,
                                             warehouse: Id, photo: seq<Row>)
    requires ShowsStock(lines, warehouse, photo) && NonNegative(photo)
    requires CaptureLines(cat, warehouse, lines, counts).Ok?
    ensures ShowsStock(CaptureLines(cat, warehouse, lines, counts).value, warehouse, photo)
    decreases |counts|
  {
    if counts != [] {
      SetCountShowsStock(lines, counts[0], warehouse, photo);
      CaptureShowsStock(cat, SetCount(lines, counts[0]), counts[1..], warehouse, photo);
    }
  }

  ghost predicate CountsNonNegative(lines: seq<CountLine>) {
    forall k :: 0 <= k < |lines| ==> CountedOf(lines[k]) >= 0
  }

  lemma {:induction false} CaptureNonNegative(cat: Catalog, lines: seq<CountLine>, counts: seq<CountInput>,
                                              warehouse: Id)
    requires CountsNonNegative(lines) && CaptureLines(cat, warehouse, lines, counts).Ok?
    ensures CountsNonNegative(CaptureLines(cat, warehouse, lines, counts).value)
    decreases |counts|
  {
    if counts != [] {
      SetCountNonNegative(lines, counts[0]);
      CaptureNonNegative(cat, SetCount(lines, counts[0]), counts[1..], warehouse);
    }
  }

  lemma {:induction false} SetCountNonNegative(lines: seq<CountLine>, c: CountInput)
    requires CountsNonNegative(lines) && c.countedQty >= 0
    ensures CountsNonNegative(SetCount(lines, c))
  {
    if lines != [] && !(lines[0].product == c.product && lines[0].location == c.location) {
      SetCountNonNegative(lines[1..], c);
    }
  }

  lemma {:induction false} PhotoUncounted(rows: seq<Row>, warehouse: Id)
    ensures CountsNonNegative(PhotoLines(rows, warehouse))
  {
    if rows != [] {
      PhotoUncounted(rows[1..], warehouse);
    }
  }

  /** Starting a count photographs the ledger as it is. */
  lemma StartPhotographs(h: Hotel, clock: int, id: Id, at: int)
    requires LedgerInv(h.ledger, clock) && clock <= at
    requires StartStocktake(h, id, at).Ok? && h.stocktakes[id].lines == []
    ensures Photographed(h.ledger, at, StartStocktake(h, id, at).value, id)
  {
    PhotoShowsStock(h.ledger.stock, h.stocktakes[id].warehouse);
    assert [] + PhotoLines(h.ledger.stock, h.stocktakes[id].warehouse)
        == PhotoLines(h.ledger.stock, h.stocktakes[id].warehouse);
  }

  // ----- the adjustments of an approval -----

  /** Stock now plus the difference of a line is its count plus what flipped since the photo. */
  lemma DifferenceMeaning(photo: Ledger, snapshotAt: int, h: Hotel, clock: int, id: Id, k: nat)
    requires Photographed(photo, snapshotAt, h, id) && LedgerInv(h.ledger, clock)
    requires k < |h.stocktakes[id].lines|
    ensures var st := h.stocktakes[id]; var line := st.lines[k]; var p := PosOf(st.warehouse, line);
      Qty(h.ledger.stock, p) + DifferenceOf(st.warehouse, Since(h.ledger.movements, st.warehouse, snapshotAt), line)
      == CountedOf(line) + Flipped(photo.movements, h.ledger.movements, p)
  {
    var st := h.stocktakes[id];
    var p := PosOf(st.warehouse, st.lines[k]);
    var before, now := photo.movements, h.ledger.movements;
    forall i | 0 <= i < |before| ensures now[i].createdAt <= snapshotAt {
      assert SameMovement(before[i], now[i]) && WellFormed(before[i]);
    }
    SinceNet(now, |before|, st.warehouse, snapshotAt, p);
    FlippedIsChange(before, now, p);
    assert now == now[..|before|] + now[|before|..];
    ActiveNetSplit(now[..|before|], now[|before|..], p);
  }

  function AdjustmentMoves(warehouse: Id, rows: seq<Adjustment>): seq<Move> {
    if rows == [] then []
    else [Move(PosOf(warehouse, rows[0].line), rows[0].difference)] + AdjustmentMoves(warehouse, rows[1..])
  }

  ghost predicate Directed(kind: MovementType, rows: seq<Adjustment>) {
    forall k :: 0 <= k < |rows| ==> if kind == AdjustIn then rows[k].difference > 0 else rows[k].difference < 0
  }

  /** The movement `m` adjusts `warehouse` in the direction of its kind. */
  ghost predicate Adjusts(m: Movement, warehouse: Id) {
    && (m.kind == AdjustIn || m.kind == AdjustOut)
    && m.source == (if m.kind == AdjustOut then Some(warehouse) else None)
    && m.target == (if m.kind == AdjustIn then Some(warehouse) else None)
  }

  lemma AdjustmentLine(cat: Catalog, i: MovementInput, m: Movement, warehouse: Id, a: Adjustment, input: LineInput)
    requires Adjusts(m, warehouse) && i.kind == m.kind
    requires if m.kind == AdjustIn then a.difference > 0 else a.difference < 0
    requires [input] == AdjustmentLines(m.kind, [a]) && ResolveLine(cat, i, input).Ok?
    ensures var line := ResolveLine(cat, i, input).value;
      TakeOut(m, line) + PutIn(m, line) == [Move(PosOf(warehouse, a.line), a.difference)]
  {
    assert input == AdjustmentLines(m.kind, [a])[0];
  }

  lemma {:induction false} AdjustmentDraft(cat: Catalog, i: MovementInput, m: Movement, warehouse: Id,
                                           rows: seq<Adjustment>)
    requires Adjusts(m, warehouse) && i.kind == m.kind && Directed(m.kind, rows)
    requires ResolveLines(cat, i, AdjustmentLines(m.kind, rows)).Ok?
    ensures MovesOfLines(m, ResolveLines(cat, i, AdjustmentLines(m.kind, rows)).value)
        == AdjustmentMoves(warehouse, rows)
  {
    if rows != [] {
      var inputs := AdjustmentLines(m.kind, rows);
      assert inputs[1..] == AdjustmentLines(m.kind, rows[1..]);
      AdjustmentDraft(cat, i, m, warehouse, rows[1..]);
      AdjustmentLine(cat, i, m, warehouse, rows[0], inputs[0]);
      var lines := ResolveLines(cat, i, inputs).value;
      assert lines[1..] == ResolveLines(cat, i, inputs[1..]).value;
    }
  }

  lemma {:induction false} AdjustmentLinesPositive(kind: MovementType, rows: seq<Adjustment>)
    requires Directed(kind, rows)
    ensures PositiveQuantities(AdjustmentLines(kind, rows)) && |AdjustmentLines(kind, rows)| == |rows|
  {
    if rows != [] {
      AdjustmentLinesPositive(kind, rows[1..]);
    }
  }

  /** Posting an adjustment applies exactly its differences, and is refused for stock only by them. */
  lemma PostAdjustmentApplies(l: Ledger, cat: Catalog, kind: MovementType, warehouse: Id, reason: Id, id: Id,
                              rows: seq<Adjustment>, at: int)
    requires (kind == AdjustIn || kind == AdjustOut) && Directed(kind, rows)
    ensures var r := PostAdjustment(l, cat, kind, warehouse, reason, id, rows, at);
      && (r.Ok? ==> ApplyMoves(l.stock, AdjustmentMoves(warehouse, rows)) == Ok(r.value.stock))
      && (r.Err? && r.error.StockInsufficient? ==> ApplyMoves(l.stock, AdjustmentMoves(warehouse, rows)).Err?)
  {
    if rows != [] {
      AdjustmentLinesPositive(kind, rows);
      var i := AdjustmentInput(kind, warehouse, reason, id, rows);
      if Draft(cat, i, None, at).Ok? {
        AdjustmentDraft(cat, i, Draft(cat, i, None, at).value, warehouse, rows);
      } else {
        ResolveNeverShort(cat, i, i.lines);
      }
    }
  }

  lemma {:induction false} ResolveNeverShort(cat: Catalog, i: MovementInput, lines: seq<LineInput>)
    ensures ResolveLines(cat, i, lines).Err? ==> !ResolveLines(cat, i, lines).error.StockInsufficient?
  {
    if lines != [] {
      ResolveNeverShort(cat, i, lines[1..]);
    }
  }

  lemma {:induction false} SplitDirected(rows: seq<Adjustment>)
    ensures Directed(AdjustIn, Upward(rows)) && Directed(AdjustOut, Downward(rows))
  {
    if rows != [] {
      SplitDirected(rows[1..]);
    }
  }

  function PositivePart(x: int): int {
    if x > 0 then x else 0
  }

  /** At the position of a line the two adjustments add its difference; elsewhere they add nothing. */
  lemma {:induction false} AdjustmentNet(warehouse: Id, since: seq<Movement>, lines: seq<CountLine>, p: Pos)
    requires DistinctLines(lines)
    ensures var rows := Adjustments(warehouse, since, lines);
      var up := Net(AdjustmentMoves(warehouse, Upward(rows)), p);
      var down := Net(AdjustmentMoves(warehouse, Downward(rows)), p);
      && (forall k :: 0 <= k < |lines| && PosOf(warehouse, lines[k]) == p ==>
            && up == PositivePart(DifferenceOf(warehouse, since, lines[k]))
            && down == -PositivePart(-DifferenceOf(warehouse, since, lines[k])))
      && ((forall k :: 0 <= k < |lines| ==> PosOf(warehouse, lines[k]) != p) ==> up == 0 && down == 0)
  {
    if lines != [] {
      AdjustmentNet(warehouse, since, lines[1..], p);
    }
  }

  lemma PostAdjustmentsApply(l: Ledger, cat: Catalog, warehouse: Id, id: Id, rows: seq<Adjustment>, at: int)
    requires Unique(l.stock) && NonNegative(l.stock)
    ensures var r := PostAdjustments(l, cat, warehouse, id, rows, at);
      var up, down := AdjustmentMoves(warehouse, Upward(rows)), AdjustmentMoves(warehouse, Downward(rows));
      && (r.Ok? ==> NonNegative(r.value.stock)
                    && forall p :: Qty(r.value.stock, p) == Qty(l.stock, p) + Net(up, p) + Net(down, p))
      && (r.Err? && r.error.StockInsufficient? ==> exists p :: Qty(l.stock, p) + Net(up, p) + Net(down, p) < 0)
  {
    var r := PostAdjustments(l, cat, warehouse, id, rows, at);
    var up, down := AdjustmentMoves(warehouse, Upward(rows)), AdjustmentMoves(warehouse, Downward(rows));
    SplitDirected(rows);
    if (Upward(rows) != [] || Downward(rows) != []) && cat.countReason.Some? {
      PostAdjustmentApplies(l, cat, AdjustIn, warehouse, cat.countReason.value, id, Upward(rows), at);
      DirectedMoves(AdjustIn, warehouse, Upward(rows));
      DirectedMoves(AdjustOut, warehouse, Downward(rows));
      ApplyMovesAccepts(l.stock, up);
      assert ApplyMoves(l.stock, up).Ok?;
      ApplyMovesNet(l.stock, up);
      ApplyMovesSafe(l.stock, up);
      var r1 := PostAdjustment(l, cat, AdjustIn, warehouse, cat.countReason.value, id, Upward(rows), at);
      if r1.Ok? {
        PostAdjustmentApplies(r1.value, cat, AdjustOut, warehouse, cat.countReason.value, id, Downward(rows), at);
        UnmixedAccepts(r1.value.stock, down);
        if r.Ok? {
          ApplyMovesNet(r1.value.stock, down);
          ApplyMovesSafe(r1.value.stock, down);
        }
      }
    }
  }

  lemma {:induction false} DirectedMoves(kind: MovementType, warehouse: Id, rows: seq<Adjustment>)
    requires Directed(kind, rows)
    ensures forall k :: 0 <= k < |AdjustmentMoves(warehouse, rows)| ==>
              if kind == AdjustIn then AdjustmentMoves(warehouse, rows)[k].delta > 0
              else AdjustmentMoves(warehouse, rows)[k].delta < 0
  {
    if rows != [] {
      DirectedMoves(kind, warehouse, rows[1..]);
    }
  }

  ghost predicate Counted(st: Stocktake, p: Pos) {
    exists k :: 0 <= k < |st.lines| && PosOf(st.warehouse, st.lines[k]) == p
  }

  /** What the count of line `k` and the flips since the photo leave at its position. */
  function CountedAndFlipped(photo: Ledger, h: Hotel, st: Stocktake, k: nat): int
    requires k < |st.lines| && |photo.movements| <= |h.ledger.movements|
  {
    CountedOf(st.lines[k]) + Flipped(photo.movements, h.ledger.movements, PosOf(st.warehouse, st.lines[k]))
  }

  /**
   * After an approval, stock at every counted position is its count plus the signed sum of the
   * movements older than the photo whose active status changed since; other positions are untouched.
   */
  lemma ApprovalLeavesCounts(photo: Ledger, snapshotAt: int, h: Hotel, clock: int, cat: Catalog, id: Id, actor: Id,
                             canApproveOwnClose: bool, at: int)
    requires Photographed(photo, snapshotAt, h, id) && LedgerInv(h.ledger, clock)
    requires ApproveStocktake(h, cat, id, actor, canApproveOwnClose, at).Ok?
    ensures var after := ApproveStocktake(h, cat, id, actor, canApproveOwnClose, at).value.ledger.stock;
      var st := h.stocktakes[id];
      && (forall k :: 0 <= k < |st.lines| ==>
            Qty(after, PosOf(st.warehouse, st.lines[k])) == CountedAndFlipped(photo, h, st, k) >= 0)
      && (forall p :: !Counted(st, p) ==> Qty(after, p) == Qty(h.ledger.stock, p))
  {
    var st := h.stocktakes[id];
    var since := Since(h.ledger.movements, st.warehouse, snapshotAt);
    var rows := Adjustments(st.warehouse, since, st.lines);
    var after := ApproveStocktake(h, cat, id, actor, canApproveOwnClose, at).value.ledger.stock;
    PostAdjustmentsApply(h.ledger, cat, st.warehouse, id, rows, at);
    forall k | 0 <= k < |st.lines|
      ensures Qty(after, PosOf(st.warehouse, st.lines[k])) == CountedAndFlipped(photo, h, st, k) >= 0
    {
      var p := PosOf(st.warehouse, st.lines[k]);
      AdjustmentNet(st.warehouse, since, st.lines, p);
      DifferenceMeaning(photo, snapshotAt, h, clock, id, k);
      QtyNonNegative(after, p);
    }
    forall p | !Counted(st, p) ensures Qty(after, p) == Qty(h.ledger.stock, p) {
      AdjustmentNet(st.warehouse, since, st.lines, p);
    }
  }

  /** An approval is refused for stock only where a count plus what flipped since the photo is negative. */
  lemma ApprovalShortOnlyByFlips(photo: Ledger, snapshotAt: int, h: Hotel, clock: int, cat: Catalog, id: Id, actor: Id,
                                 canApproveOwnClose: bool, at: int)
    requires Photographed(photo, snapshotAt, h, id) && LedgerInv(h.ledger, clock)
    requires var r := ApproveStocktake(h, cat, id, actor, canApproveOwnClose, at); r.Err? && r.error.StockInsufficient?
    ensures exists k :: 0 <= k < |h.stocktakes[id].lines| && CountedAndFlipped(photo, h, h.stocktakes[id], k) < 0
  {
    var st := h.stocktakes[id];
    var since := Since(h.ledger.movements, st.warehouse, snapshotAt);
    var rows := Adjustments(st.warehouse, since, st.lines);
    var up, down := AdjustmentMoves(st.warehouse, Upward(rows)), AdjustmentMoves(st.warehouse, Downward(rows));
    PostAdjustmentsApply(h.ledger, cat, st.warehouse, id, rows, at);
    var p :| Qty(h.ledger.stock, p) + Net(up, p) + Net(down, p) < 0;
    QtyNonNegative(h.ledger.stock, p);
    AdjustmentNet(st.warehouse, since, st.lines, p);
    var k :| 0 <= k < |st.lines| && PosOf(st.warehouse, st.lines[k]) == p;
    DifferenceMeaning(photo, snapshotAt, h, clock, id, k);
    assert CountedAndFlipped(photo, h, st, k) < 0;
  }
}
