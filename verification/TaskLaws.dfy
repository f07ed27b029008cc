/** Consumption: what task movements took equals what finished tasks list, whatever else happens. */
module TaskLaws {
  import opened Common
  import opened Stock
  import opened Kardex
  import opened Catalog
  import opened Ledger
  import opened HotelState
  import opened Stocktakes
  import opened StocktakeLaws
  import opened Housekeeping
  import opened HotelRuns
  import opened HotelLaws

  function LineTotal(lines: seq<Line>, product: Id): int {
    if lines == [] then 0
    else (if lines[0].product == product then lines[0].quantity else 0) + LineTotal(lines[1..], product)
  }

  function InputTotal(lines: seq<LineInput>, product: Id): int {
    if lines == [] then 0
    else (if lines[0].product == product then lines[0].quantity else 0) + InputTotal(lines[1..], product)
  }

  function TaskTotal(lines: seq<TaskLine>, product: Id): int {
    if lines == [] then 0
    else (if lines[0].product == product then lines[0].quantity else 0) + TaskTotal(lines[1..], product)
  }

  function ConsumedBy(m: Movement, product: Id): int {
    if IsCancellable(m.kind) then 0 else LineTotal(m.lines, product)
  }

  /** Total of a product on all room consumptions and linen exchanges. */
  function Consumed(movements: seq<Movement>, product: Id): int {
    if movements == [] then 0 else ConsumedBy(movements[0], product) + Consumed(movements[1..], product)
  }

  function FinishedBy(t: Task, product: Id): int {
    if t.status == TaskFinished then TaskTotal(t.lines, product) else 0
  }

  /** Total of a product on the lines of all finished tasks. */
  function FinishedTotal(tasks: seq<Task>, product: Id): int {
    if tasks == [] then 0 else FinishedBy(tasks[0], product) + FinishedTotal(tasks[1..], product)
  }

  lemma {:induction false} ConsumedSplit(a: seq<Movement>, b: seq<Movement>, product: Id)
    ensures Consumed(a + b, product) == Consumed(a, product) + Consumed(b, product)
  {
    if a == [] {
      assert a + b == b;
    } else {
      ConsumedSplit(a[1..], b, product);
      assert (a + b)[1..] == a[1..] + b;
    }
  }

  lemma {:induction false} FinishedSplit(a: seq<Task>, b: seq<Task>, product: Id)
    ensures FinishedTotal(a + b, product) == FinishedTotal(a, product) + FinishedTotal(b, product)
  {
    if a == [] {
      assert a + b == b;
    } else {
      FinishedSplit(a[1..], b, product);
      assert (a + b)[1..] == a[1..] + b;
    }
  }

  lemma {:induction false} FinishedUpdate(tasks: seq<Task>, id: nat, t: Task, product: Id)
    requires id < |tasks|
    ensures FinishedTotal(tasks[id := t], product)
         == FinishedTotal(tasks, product) - FinishedBy(tasks[id], product) + FinishedBy(t, product)
  {
    if id > 0 {
      FinishedUpdate(tasks[1..], id - 1, t, product);
      assert tasks[id := t][1..] == tasks[1..][id - 1 := t];
    } else {
      assert tasks[id := t][1..] == tasks[1..];
    }
  }

  lemma {:induction false} ConsumedUnchanged(before: seq<Movement>, after: seq<Movement>, product: Id)
    requires Extends(before, after) && AddsNoTaskMovement(before, after)
    ensures Consumed(after, product) == Consumed(before, product)
    decreases |after|
  {
    if before != [] {
      assert SameMovement(before[0], after[0]);
      ConsumedUnchanged(before[1..], after[1..], product);
    } else if after != [] {
      ConsumedUnchanged([], after[1..], product);
    }
  }

  // ----- extras -----

  function KitOnly(lines: seq<TaskLine>): seq<TaskLine> {
    if lines == [] then []
    else if lines[0].source == LineSource.Kit then [lines[0]] + KitOnly(lines[1..])
    else KitOnly(lines[1..])
  }

  /** At most one extra line of each product. */
  ghost predicate OneExtraEach(lines: seq<TaskLine>) {
    forall i, j :: 0 <= i < j < |lines| && lines[i].source == lines[j].source == Extra
        ==> lines[i].product != lines[j].product
  }

  lemma {:induction false} ExtraTotal(lines: seq<TaskLine>, product: Id, quantity: int, other: Id)
    ensures TaskTotal(AddLine(lines, product, quantity), other)
         == TaskTotal(lines, other) + if other == product then quantity else 0
    ensures KitOnly(AddLine(lines, product, quantity)) == KitOnly(lines)
  {
    if lines != [] {
      var after := AddLine(lines, product, quantity);
      if lines[0].product == product && lines[0].source == Extra {
        assert after[1..] == lines[1..];
      } else {
        ExtraTotal(lines[1..], product, quantity, other);
        assert after[1..] == AddLine(lines[1..], product, quantity);
      }
    }
  }

  predicate IsExtraOf(line: TaskLine, product: Id) {
    line.source == Extra && line.product == product
  }

  /** Line by line: the product's first extra line grows, or a new one comes last; the others stay. */
  lemma {:induction false} ExtraByLine(lines: seq<TaskLine>, product: Id, quantity: int) returns (k: nat)
    ensures k <= |lines| && forall i :: 0 <= i < k ==> !IsExtraOf(lines[i], product)
    ensures k < |lines| ==> IsExtraOf(lines[k], product)
    ensures AddLine(lines, product, quantity)
         == if k < |lines| then lines[k := lines[k].(quantity := lines[k].quantity + quantity)]
            else lines + [TaskLine(product, quantity, Extra)]
  {
    if lines == [] || IsExtraOf(lines[0], product) {
      k := 0;
    } else {
      var j := ExtraByLine(lines[1..], product, quantity);
      k := j + 1;
      assert forall i :: 0 < i < |lines| ==> lines[i] == lines[1..][i - 1];
    }
  }

  /** An extra adds its quantity to its product alone, never touches the kit, and never makes a second line. */
  lemma ExtraAdds(lines: seq<TaskLine>, product: Id, quantity: int, other: Id)
    ensures var after := AddLine(lines, product, quantity);
      && TaskTotal(after, other) == TaskTotal(lines, other) + (if other == product then quantity else 0)
      && KitOnly(after) == KitOnly(lines)
      && (OneExtraEach(lines) ==> OneExtraEach(after))
      && forall k :: 0 <= k < |after| && after[k].source == Extra && after[k].product != product ==> after[k] in lines
  {
    ExtraTotal(lines, product, quantity, other);
    var k := ExtraByLine(lines, product, quantity);
  }

  // ----- one finish -----

  lemma {:induction false} SplitTotals(cat: Catalog, lines: seq<TaskLine>, product: Id)
    ensures InputTotal(LinesToMove(cat, lines, false), product) + InputTotal(LinesToMove(cat, lines, true), product)
         == TaskTotal(lines, product)
  {
    if lines != [] {
      SplitTotals(cat, lines[1..], product);
      var linen := IsLinen(cat, lines[0].product);
      assert LinesToMove(cat, lines, linen)[1..] == LinesToMove(cat, lines[1..], linen);
    }
  }

  lemma {:induction false} ResolvedTotal(cat: Catalog, i: MovementInput, lines: seq<LineInput>, product: Id)
    requires ResolveLines(cat, i, lines).Ok?
    ensures LineTotal(ResolveLines(cat, i, lines).value, product) == InputTotal(lines, product)
  {
    if lines != [] {
      ResolvedTotal(cat, i, lines[1..], product);
      assert ResolveLines(cat, i, lines).value[1..] == ResolveLines(cat, i, lines[1..]).value;
    }
  }

  /** Total of a product on the movement a task refers to. */
  function OnMovement(movements: seq<Movement>, id: Option<Id>, product: Id): int {
    if id.Some? && id.value < |movements| then ConsumedBy(movements[id.value], product) else 0
  }

  lemma TaskMovementTotal(l: Ledger, cat: Catalog, i: MovementInput, at: int, product: Id)
    requires !IsCancellable(i.kind) && PostTaskMovement(l, cat, i, at).Ok?
    ensures var moved := PostTaskMovement(l, cat, i, at).value;
      && Consumed(moved.ledger.movements, product) == Consumed(l.movements, product) + InputTotal(i.lines, product)
      && OnMovement(moved.ledger.movements, moved.id, product) == InputTotal(i.lines, product)
      && l.movements <= moved.ledger.movements
      && (moved.id.Some? ==> moved.id.value < |moved.ledger.movements|)
  {
    if i.lines != [] {
      var m := Draft(cat, i, None, at).value;
      ResolvedTotal(cat, i, i.lines, product);
      ConsumedSplit(l.movements, [m], product);
      assert (l.movements + [m])[|l.movements|] == m;
    }
  }

  /** A finished task's movements carry, product by product, exactly the task's lines. */
  ghost predicate Accounted(movements: seq<Movement>, t: Task) {
    && (t.movement.Some? ==> t.movement.value < |movements|)
    && (t.linenMovement.Some? ==> t.linenMovement.value < |movements|)
    && forall product ::
         OnMovement(movements, t.movement, product) + OnMovement(movements, t.linenMovement, product)
         == TaskTotal(t.lines, product)
  }

  ghost predicate TasksInv(movements: seq<Movement>, tasks: seq<Task>) {
    && (forall product :: Consumed(movements, product) == FinishedTotal(tasks, product))
    && (forall i :: 0 <= i < |tasks| && tasks[i].status == TaskFinished ==> Accounted(movements, tasks[i]))
  }

  lemma AccountedStays(before: seq<Movement>, after: seq<Movement>, t: Task)
    requires Extends(before, after) && Accounted(before, t)
    ensures Accounted(after, t)
  {
    forall product
      ensures OnMovement(after, t.movement, product) + OnMovement(after, t.linenMovement, product)
          == TaskTotal(t.lines, product)
    {
      if t.movement.Some? {
        assert SameMovement(before[t.movement.value], after[t.movement.value]);
      }
      if t.linenMovement.Some? {
        assert SameMovement(before[t.linenMovement.value], after[t.linenMovement.value]);
      }
      assert OnMovement(before, t.movement, product) + OnMovement(before, t.linenMovement, product)
          == TaskTotal(t.lines, product);
    }
  }

  /** What finishing task `t` posts, in total and on the task's own movements. */
  lemma FinishPosts(h: Hotel, cat: Catalog, id: Id, actor: Id, canManage: bool, at: int, product: Id)
    requires FinishTask(h, cat, id, actor, canManage, at).Ok? && h.tasks[id].status != TaskFinished
    ensures var after := FinishTask(h, cat, id, actor, canManage, at).value;
      var t, done := h.tasks[id], after.tasks[id];
      && after.tasks == h.tasks[id := done]
      && done == Finished(t, done.movement, done.linenMovement, at)
      && Consumed(after.ledger.movements, product)
          == Consumed(h.ledger.movements, product) + TaskTotal(t.lines, product)
      && OnMovement(after.ledger.movements, done.movement, product)
         + OnMovement(after.ledger.movements, done.linenMovement, product) == TaskTotal(t.lines, product)
      && (done.movement.Some? ==> done.movement.value < |after.ledger.movements|)
      && (done.linenMovement.Some? ==> done.linenMovement.value < |after.ledger.movements|)
  {
    var t := h.tasks[id];
    var laundry := FindWarehouse(cat.warehouses, Laundry, None);
    var consumed := PostTaskMovement(h.ledger, cat, ConsumptionInput(cat, t), at).value;
    TaskMovementTotal(h.ledger, cat, ConsumptionInput(cat, t), at, product);
    TaskMovementTotal(consumed.ledger, cat, LinenInput(cat, t, laundry), at, product);
    SplitTotals(cat, t.lines, product);
  }

  // ----- tasks over one call -----

  /** A finished task only ever gains its inspection; a cancelled one never changes. */
  ghost predicate TaskStep(t: Task, after: Task) {
    && after.room == t.room
    && (t.status == TaskFinished ==> after == t.(inspected := after.inspected))
    && (t.status == TaskCancelled ==> after == t)
  }

  ghost predicate TasksStep(before: seq<Task>, after: seq<Task>) {
    && |before| <= |after|
    && forall i :: 0 <= i < |before| ==> TaskStep(before[i], after[i])
  }

  /** No task finishes, and what is added is not finished. */
  ghost predicate NoneFinishes(before: seq<Task>, after: seq<Task>) {
    && TasksStep(before, after)
    && (forall i :: 0 <= i < |before| ==> (after[i].status == TaskFinished <==> before[i].status == TaskFinished))
    && (forall i :: |before| <= i < |after| ==> after[i].status != TaskFinished)
  }

  lemma {:induction false} NoneFinishesTotal(before: seq<Task>, after: seq<Task>, product: Id)
    requires NoneFinishes(before, after)
    ensures FinishedTotal(after, product) == FinishedTotal(before, product)
    decreases |after|
  {
    if before != [] {
      assert TaskStep(before[0], after[0]);
      NoneFinishesTotal(before[1..], after[1..], product);
    } else if after != [] {
      NoneFinishesTotal([], after[1..], product);
    }
  }

  lemma RoomOpTasks(h: Hotel, cat: Catalog, at: int, op: RoomOp)
    requires ExecRoom(h, cat, at, op).Ok?
    ensures NoneFinishes(h.tasks, ExecRoom(h, cat, at, op).value.tasks)
  {
  }

  lemma TaskMoves(tasks: seq<Task>, id: Id, t: Task)
    requires id < |tasks| && TaskStep(tasks[id], t) && (t.status == TaskFinished <==> tasks[id].status == TaskFinished)
    ensures NoneFinishes(tasks, tasks[id := t])
  {
  }

  lemma TaskAdded(before: seq<Task>, tasks: seq<Task>, t: Task)
    requires NoneFinishes(before, tasks) && t.status == TaskPending
    ensures NoneFinishes(before, tasks + [t])
  {
  }

  lemma InspectTasks(h: Hotel, id: Id, approved: bool, reason: Option<Id>)
    requires InspectTask(h, id, approved, reason).Ok?
    ensures NoneFinishes(h.tasks, InspectTask(h, id, approved, reason).value.tasks)
  {
    var inspected := h.tasks[id := h.tasks[id].(inspected := true)];
    var after := InspectTask(h, id, approved, reason).value.tasks;
    TaskMoves(h.tasks, id, inspected[id]);
    if approved {
      assert after == inspected;
    } else {
      TaskAdded(h.tasks, inspected, after[|inspected|]);
      assert after == inspected + [after[|inspected|]];
    }
  }

  lemma TaskOpTasks(h: Hotel, cat: Catalog, at: int, op: TaskOp)
    requires !op.Finish? && ExecTask(h, cat, at, op).Ok?
    ensures NoneFinishes(h.tasks, ExecTask(h, cat, at, op).value.tasks)
  {
    var after := ExecTask(h, cat, at, op).value.tasks;
    if op.OpenTask? {
      TaskAdded(h.tasks, h.tasks, after[|h.tasks|]);
    } else if op.Inspect? {
      InspectTasks(h, op.id, op.approved, op.reason);
    } else {
      TaskMoves(h.tasks, op.id, after[op.id]);
    }
  }

  lemma ExecTasksStep(h: Hotel, c: Call)
    ensures TasksStep(h.tasks, Step(h, c).tasks)
    ensures !IsFinish(c.op) ==> NoneFinishes(h.tasks, Step(h, c).tasks)
  {
    if Exec(h, c).Ok? {
      match c.op {
        case Tasks(op) =>
          if op.Finish? {
            if h.tasks[op.id].status != TaskFinished {
              FinishPosts(h, c.cat, op.id, op.actor, op.canManage, c.at, 0);
            }
          } else {
            TaskOpTasks(h, c.cat, c.at, op);
          }
        case Rooms(op) => RoomOpTasks(h, c.cat, c.at, op);
        case _ => assert Step(h, c).tasks == h.tasks;
      }
    }
  }

  /** The task a finish has finished is accounted for. */
  lemma FinishAccounts(h: Hotel, cat: Catalog, id: Id, actor: Id, canManage: bool, at: int)
    requires FinishTask(h, cat, id, actor, canManage, at).Ok? && h.tasks[id].status != TaskFinished
    ensures var after := FinishTask(h, cat, id, actor, canManage, at).value;
      Accounted(after.ledger.movements, after.tasks[id])
  {
    var after := FinishTask(h, cat, id, actor, canManage, at).value;
    var movements, done := after.ledger.movements, after.tasks[id];
    forall product
      ensures OnMovement(movements, done.movement, product) + OnMovement(movements, done.linenMovement, product)
           == TaskTotal(done.lines, product)
    {
      FinishPosts(h, cat, id, actor, canManage, at, product);
    }
    FinishPosts(h, cat, id, actor, canManage, at, 0);
  }

  /** The call finishes a task that was not finished. */
  ghost predicate FirstFinish(h: Hotel, c: Call) {
    && IsFinish(c.op) && c.op.t.id < |h.tasks| && h.tasks[c.op.t.id].status != TaskFinished
    && Exec(h, c).Ok?
  }

  lemma FinishKeepsTasks(h: Hotel, c: Call, clock: int)
    requires LedgerInv(h.ledger, clock) && clock < c.at && TasksInv(h.ledger.movements, h.tasks)
    requires FirstFinish(h, c)
    ensures TasksInv(Step(h, c).ledger.movements, Step(h, c).tasks)
  {
    var after, op := Step(h, c), c.op.t;
    ExecKeepsLedger(h, c, clock);
    forall product ensures Consumed(after.ledger.movements, product) == FinishedTotal(after.tasks, product) {
      FinishPosts(h, c.cat, op.id, op.actor, op.canManage, c.at, product);
      FinishedUpdate(h.tasks, op.id, after.tasks[op.id], product);
    }
    FinishPosts(h, c.cat, op.id, op.actor, op.canManage, c.at, 0);
    FinishAccounts(h, c.cat, op.id, op.actor, op.canManage, c.at);
    forall i | 0 <= i < |after.tasks| && after.tasks[i].status == TaskFinished && i != op.id
      ensures Accounted(after.ledger.movements, after.tasks[i])
    {
      AccountedStays(h.ledger.movements, after.ledger.movements, h.tasks[i]);
    }
  }

  lemma ExecKeepsTasks(h: Hotel, c: Call, clock: int)
    requires LedgerInv(h.ledger, clock) && clock < c.at && TasksInv(h.ledger.movements, h.tasks)
    ensures TasksInv(Step(h, c).ledger.movements, Step(h, c).tasks)
  {
    var after := Step(h, c);
    if IsFinish(c.op) {
      if Exec(h, c).Ok? && h.tasks[c.op.t.id].status != TaskFinished {
        FinishKeepsTasks(h, c, clock);
      }
    } else {
      ExecKeepsLedger(h, c, clock);
      ExecTasksStep(h, c);
      forall product ensures Consumed(after.ledger.movements, product) == FinishedTotal(after.tasks, product) {
        ConsumedUnchanged(h.ledger.movements, after.ledger.movements, product);
        NoneFinishesTotal(h.tasks, after.tasks, product);
      }
      forall i | 0 <= i < |after.tasks| && after.tasks[i].status == TaskFinished
        ensures Accounted(after.ledger.movements, after.tasks[i])
      {
        assert TaskStep(h.tasks[i], after.tasks[i]);
        AccountedStays(h.ledger.movements, after.ledger.movements, h.tasks[i]);
      }
    }
  }

  // ----- kits -----

  /** The last use is some task's, and no task used the product later. */
  lemma {:induction false} LastUsedIsLatest(tasks: seq<Task>, room: Id, product: Id)
    ensures var last := LastUsed(tasks, room, product);
      && (last.Some? ==> exists i :: 0 <= i < |tasks| && UsedAt(tasks[i], room, product) == last)
      && forall i :: 0 <= i < |tasks| && UsedAt(tasks[i], room, product).Some? ==>
           last.Some? && last.value >= UsedAt(tasks[i], room, product).value
  {
    if tasks != [] {
      var front := tasks[..|tasks| - 1];
      LastUsedIsLatest(front, room, product);
      assert forall i :: 0 <= i < |front| ==> tasks[i] == front[i];
    }
  }

  lemma {:induction false} KitLineIsIncluded(lines: seq<KitLine>, tasks: seq<Task>, room: Id, cleaning: CleaningType,
                                             now: int, product: Id)
    ensures HasProduct(KitLines(lines, tasks, room, cleaning, now), product)
       <==> exists k :: 0 <= k < |lines| && lines[k].product == product
                        && Applies(lines[k], cleaning, LastUsed(tasks, room, product), now)
  {
    if lines != [] {
      var front, line := lines[..|lines| - 1], lines[|lines| - 1];
      KitLineIsIncluded(front, tasks, room, cleaning, now, product);
      var last := LastUsed(tasks, room, line.product);
      HasProductSplit(KitLines(front, tasks, room, cleaning, now), TaskLineOf(line, cleaning, last, now), product);
      OneTaskLine(line, cleaning, last, now, product);
      assert forall k :: 0 <= k < |front| ==> lines[k] == front[k];
    }
  }

  lemma OneTaskLine(line: KitLine, cleaning: CleaningType, last: Option<int>, now: int, product: Id)
    ensures HasProduct(TaskLineOf(line, cleaning, last, now), product)
       <==> line.product == product && Applies(line, cleaning, last, now)
  {
    if Applies(line, cleaning, last, now) {
      assert TaskLineOf(line, cleaning, last, now)[0].product == line.product;
    }
  }

  lemma HasProductSplit(a: seq<TaskLine>, b: seq<TaskLine>, product: Id)
    ensures HasProduct(a + b, product) <==> HasProduct(a, product) || HasProduct(b, product)
  {
    if HasProduct(a, product) {
      var k :| 0 <= k < |a| && a[k].product == product;
      assert (a + b)[k].product == product;
    }
    if HasProduct(b, product) {
      var k :| 0 <= k < |b| && b[k].product == product;
      assert (a + b)[|a| + k].product == product;
    }
  }

  lemma WaitsDays(last: int, used: int, now: int, days: int)
    requires used <= last && now - used < days * MS_PER_DAY
    ensures (now - last) / MS_PER_DAY < days
  {
  }

  /** An every-N-days line does not apply to a stay less than N days after the last use. */
  lemma TooSoon(line: KitLine, last: int, used: int, now: int, days: int)
    requires line.frequency == EveryNDays && line.everyNDays == Some(days)
    requires used <= last && now - used < days * MS_PER_DAY
    ensures !Applies(line, Stay, Some(last), now)
  {
    WaitsDays(last, used, now, days);
  }

  lemma RecentUseBlocks(kit: seq<KitLine>, tasks: seq<Task>, i: nat, room: Id, product: Id, used: int, days: int,
                        now: int)
    requires i < |tasks| && UsedAt(tasks[i], room, product) == Some(used) && now - used < days * MS_PER_DAY
    requires forall k :: 0 <= k < |kit| && kit[k].product == product ==>
               kit[k].frequency == EveryNDays && kit[k].everyNDays == Some(days)
    ensures !HasProduct(KitLines(kit, tasks, room, Stay, now), product)
  {
    LastUsedIsLatest(tasks, room, product);
    KitLineIsIncluded(kit, tasks, room, Stay, now, product);
    var last := LastUsed(tasks, room, product).value;
    forall k | 0 <= k < |kit| && kit[k].product == product ensures !Applies(kit[k], Stay, Some(last), now) {
      TooSoon(kit[k], last, used, now, days);
    }
  }

  // ----- hotel-wide stock of a product -----

  /** What a movement with a product's total on its lines adds to the product's hotel-wide stock. */
  function HotelWideChange(kind: MovementType, total: int): int {
    match kind
    case InitialLoad | Inbound | AdjustIn => total
    case RoomConsumption | AdjustOut | WriteOff => -total
    case Transfer | LinenExchange => 0
  }

  lemma LineProductTotal(m: Movement, line: Line, product: Id)
    requires WellFormed(m) && WellFormedLine(m, line)
    ensures NetProduct(TakeOut(m, line) + PutIn(m, line), product)
         == HotelWideChange(m.kind, if line.product == product then line.quantity else 0)
  {
    NetProductSplit(TakeOut(m, line), PutIn(m, line), product);
    if TakeOut(m, line) != [] {
      assert TakeOut(m, line)[1..] == [];
    }
    if PutIn(m, line) != [] {
      assert PutIn(m, line)[1..] == [];
    }
  }

  lemma {:induction false} LinesProductTotal(m: Movement, lines: seq<Line>, product: Id)
    requires WellFormed(m) && forall k :: 0 <= k < |lines| ==> WellFormedLine(m, lines[k])
    ensures NetProduct(MovesOfLines(m, lines), product) == HotelWideChange(m.kind, LineTotal(lines, product))
  {
    if lines != [] {
      LinesProductTotal(m, lines[1..], product);
      LineProductTotal(m, lines[0], product);
      NetProductSplit(TakeOut(m, lines[0]) + PutIn(m, lines[0]), MovesOfLines(m, lines[1..]), product);
    }
  }

  lemma MovementTotal(stock: seq<Row>, m: Movement, product: Id)
    requires WellFormed(m) && ApplyMoves(stock, MovesOf(m)).Ok?
    ensures Total(ApplyMoves(stock, MovesOf(m)).value, product)
         == Total(stock, product) + HotelWideChange(m.kind, LineTotal(m.lines, product))
  {
    ApplyMovesNet(stock, MovesOf(m));
    LinesProductTotal(m, m.lines, product);
  }

  /**
   * Posting a movement changes a product's hotel-wide stock by its lines once: up when it only enters,
   * down when it only leaves, and not at all when it has both sides, as a linen exchange does.
   */
  lemma HotelWideTotal(l: Ledger, clock: int, cat: Catalog, i: MovementInput, requestId: Option<Id>, at: int,
                       product: Id)
    requires LedgerInv(l, clock) && MovementShapeError(i).None?
    requires ApplyInTransaction(l, cat, i, requestId, at).Ok?
    ensures var after := ApplyInTransaction(l, cat, i, requestId, at).value;
      var m := after.movements[|l.movements|];
      Total(after.stock, product) == Total(l.stock, product)
        + if m.status == Active then HotelWideChange(i.kind, InputTotal(i.lines, product)) else 0
  {
    DraftWellFormed(cat, i, requestId, at);
    var m := Draft(cat, i, requestId, at).value;
    ResolvedTotal(cat, i, i.lines, product);
    if m.status == Active {
      MovementTotal(l.stock, m, product);
    }
  }
}
