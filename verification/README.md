# Hotel warehouse, access report and outbox: a verified model

This project models, in Dafny, the parts of the back office where a wrong step is hard to see: the hotel
warehouse ledger and everything that writes to it, the entry/exit log and its report, the zone hierarchy,
report periods and local midnights, and the e-mail outbox. It proves what these parts keep over whole runs.

`dafny verify dfyconfig.toml` checks all of it.

## How it is laid out

| part | files |
|---|---|
| stock rows, movements, the ledger | `Stock`, `Kardex`, `Catalog`, `Ledger`, `LedgerLaws`, `MovementLaws`, `MovementService` |
| physical counts | `Stocktakes`, `StocktakeLaws`, `CountLaws`, `StocktakeService` |
| cleaning tasks and rooms | `Housekeeping`, `TaskLaws`, `LinenLaws`, `TaskLife`, `HousekeepingService` |
| all of these as one machine | `HotelState`, `HotelRuns`, `HotelLaws`, `RunLaws`, `Database` |
| zones | `Zones`, `ZoneEdits` |
| access log and report | `AccessLog`, `AccessLaws`, `AccessReport`, `AccessWindow`, `AccessTotals`, `WorkedTime` |
| calendar periods, local midnights | `Calendar`, `CalendarLaws`, `LocalTime` |
| outbox | `Outbox`, `OutboxLaws`, `OutboxRows`, `OutboxTimes`, `OutboxFailures`, `EmailQueue` |

Each service that writes rows is a class over the tables of `Database` (or over its own table), and each of
its methods is proved equal to a step function on the contents of those tables, refusals included. The laws
are then proved about the step functions, over every run. `HotelRuns.Step` is one service call; a call that
throws leaves the tables as they were.

## What is proved

- **Ledger.** After any run of posts, approvals, rejections, cancellations, count approvals and task
  finishes, stock at each position equals the signed sum of the active movement lines, is never negative, and
  reconciliation reports nothing (`RunLaws.ReachableStates`, `LedgerLaws.Reconcile`). A one-sided movement, or
  one between two warehouses, is accepted exactly when stock covers the sum of its lines, although the guard
  looks at one line at a time. With the types named, an accepted movement adds to each position exactly its lines
  into it, less its lines out of it, and a movement that waited for approval adds exactly while the last decision on
  it is an approval.
- **Counts.** Whatever runs between the photo and the approval, the approval leaves at every captured position
  the last quantity captured there plus the movements older than the photo whose active status changed since, and
  touches nothing else. It is refused for stock only if those changes take some count below zero. Who closed a count
  cannot approve it without permission to.
- **Tasks.** Per product, what task movements took equals what finished tasks list; finishing again does
  nothing, for ever. Products that are not linen leave the hotel from the cart, linen moves from the cart to the
  laundry, and the cart is the one fixed when the task started. A stay within N days of a product's use gets no
  every-N-days line of it; a checkout always hands the product out.
- **Rooms.** Each room's history is a connected chain that ends in the room's status, and a call moves a room only by
  an active rule, at the end of its cleaning, or by an inspection.
- **Access.** Pairing loses and invents nothing, equals a definition that only looks at neighbours, and yields
  at most one incident per voided event and one for a final open entry. Worked minutes are the time between the ends
  of a session to the nearest minute.
- **Zones.** With at most `n` calls that give a zone a kind or a parent open at a time, the parent graph is acyclic
  over all schedules exactly when `n` is at most one, and a single write keeps it acyclic exactly when it hangs no
  zone below itself or a zone under it. The walk down ends on any graph and finds exactly the zones below the
  assigned ones; the walk up ends exactly when climbing stops.
- **Calendar.** Periods contain their date, coincide or are disjoint, and tile; local midnights are exact
  unless they do not exist, and it is stated exactly when they are in order and when a range holds the instants
  of its dates and no others.
- **Outbox.** Over all schedules, failed writes included, pending rows have attempts left, and a row is held by at
  most one worker exactly under a configuration of one worker or of one row per batch. Under any configuration,
  without failed writes, a row is held once, a batch runs each row once, and an always-failing row fails after
  exactly the attempts it has left and is run again no sooner than its backoff allows. A row stays sent for ever exactly when no administrator's call is open on it and
  no worker will run it, and a row stays cancelled, unless retried, exactly when no worker will still run it.

## Where the code does less than one would expect

Each of these is stated as the exact condition under which the property holds, with a lemma that shows an input
where it fails.

- Cancelling right after posting can be refused for a transfer within one warehouse that passes through a
  location (A to B, B to C), because the lines are taken back in posting order. It succeeds exactly when each put
  is covered by the stock before posting and by the later lines there (`LedgerLaws.PostThenCancel`,
  `LedgerLaws.SameWarehouseChainNotCancellable`).
- A week that starts in the year 99 is placed in 1999, since `Date.UTC` reads years 0 to 99 as 1900 to 1999
  (section 21.4.1 of ECMA-262). Ranges are right exactly for the periods that start in the year 100 or later
  (`Calendar.RangeIsSpan`, `Calendar.FirstWeekOfYear100`). The offset is read the same way, off formatted local
  parts that are put together by `Date.UTC` (`src/core/utils/timezone.ts:169-192`), so it is the zone's exactly while
  both passes look at local dates from the year 100 on: always from 3 January 0100, and not for 1 January 0100 west
  of UTC (`LocalTime.ReadExactly`, `LocalTime.MidnightsAreRead`, `LocalTime.FirstMidnightMisread`).
- The two-pass offset misses a local midnight that the clocks skip, by the size of the gap, and is exact
  otherwise (`LocalTime.TwoPassesExact`, `LocalTime.SkippedMidnightMissed`).
- Local midnights are in order exactly when the offset gains less than the time between them. Around one change
  that fails exactly when the change skips at least that time and the two midnights straddle it. Where a whole day
  is skipped, the day before gets an empty range (`LocalTime.MidnightsInOrder`,
  `LocalTime.MidnightsOutOfOrderExactly`, `LocalTime.RangeEmptyExactly`, `LocalTime.DayBeforeSkippedDayIsEmpty`).
- The instants with a local date are those of the date's range exactly when neither midnight is skipped or
  repeated, but for the two cases in which the passes land on the edge (`LocalTime.DayCollectsItsDate`,
  `LocalTime.RangeCollectsItsDates`, `LocalTime.FirstMidnightLeftOut`).
- The report's slice of the log gives the sessions of the whole log exactly when neither end of the slice cuts
  off an event a session of the period needs (`AccessWindow.WindowCorrect`, `AccessWindow.EntryBeforeTheSlice`,
  `AccessWindow.FollowerAfterTheSlice`).
- A manual retry or cancel checks that a row is not sent, awaits, and then writes whatever has become of the row.
  If a worker sends the row in between, the retry makes the mail go out again and the cancel marks a sent mail as
  cancelled. Being sent is final exactly when no such call is open and no worker will run the row
  (`OutboxRows.SentExactly`, `OutboxRows.SentForEver`, `OutboxRows.SentExactlyUnlessLanded`,
  `OutboxFailures.LateWriteUnsends`).
- A cancel does not stop a row that a worker holds or may still take: the worker writes it all the same
  (`OutboxRows.CancelledExactly`, whose proof builds the schedule that runs such a row).
- When a worker cannot write its result, the drain flag is cleared while other workers still run, a row can end
  up held twice, and a sent row can become pending again (`OutboxFailures.FailedWriteBreaksHolding`,
  `OutboxFailures.SentRowComesBack`). Over all schedules a row is held at most once exactly when there is one worker
  or one row per batch, and exactly then no tick ever polls a row that is still in progress
  (`OutboxFailures.HeldOnceExactly`, `OutboxFailures.CleanExactly`). A batch runs each of its rows exactly when none
  is lost to a failed write (`OutboxLaws.BatchRunExactly`).
- A zone's update reads, awaits and then writes, without a transaction. Two buildings, each checked for a place below
  the other before either is written, end up below each other, and the loop over a zone's ancestors never ends
  (`ZoneEdits.CrossedUpdatesCloseARing`). Which writes close a ring, and how many calls may be open at a time, is
  stated exactly (`ZoneEdits.WriteKeepsExactly`, `ZoneEdits.AcyclicExactlyUnlessClosed`,
  `ZoneEdits.AcyclicExactlyOneAtATime`).
- A floor is only ever placed under a building, but a building can be demoted to a floor afterwards, so zones
  nest to any depth (`ZoneEdits.DepthUnbounded`).

Where comments and code differ the model follows the code: purchase receipts (`INBOUND`) are cancellable
(`src/modules/hotel-store/services/kardex-rules.ts:46-48` says they are not), and only pending tasks can be
assigned (`src/modules/hotel-store/services/task-rules.ts:42-45` mentions tasks in progress).

## Reading the model

- A row's key is its index in its table, so keys are natural numbers; an absent key is `None`. Quantities are
  integers in thousandths of a unit, the precision of the quantity columns, so the reconciliation tolerance is
  plain inequality. Costs are integers.
- Every call carries the time it commits at, later than the call before, and the catalog it reads: products,
  locations, warehouses, reasons, thresholds, zones, room types with their kits, and room-status rules may change
  between any two calls.
- The outbox and the zone calls are modelled at the grain of awaits: a worker takes and writes a row in two steps,
  an administrator's call checks and writes it in two, and so does a call on zones. All other calls are one step.
- Calls that climb from a zone take a catalog in which the climb stops; otherwise the code never answers.
- A time zone is its offset from UTC at each instant, an arbitrary function; statements say what they need of it.

## Model

| member | source | states |
|---|---|---|
| Stock.ApplyMovesAccepts | src/modules/hotel-store/services/movement.service.ts:285-298 | the line-by-line guard lets a movement through exactly when every take-out is covered by the stock and the lines up to it |
| Stock.ApplyMovesNet | src/modules/hotel-store/services/movement.service.ts:141-146 | an accepted movement adds exactly its signed sum at every position, and its product sum hotel-wide |
| Stock.ApplyMovesSafe | src/modules/hotel-store/services/movement.service.ts:285-298 | an accepted movement never leaves negative stock nor a second row for a position |
| Stock.UnmixedAccepts | src/modules/hotel-store/services/movement.service.ts:141-146 | when no position is both taken from and put into, the guard accepts exactly when the sum of all lines is covered, repeated products included |
| Stock.UndoAccepts | src/modules/hotel-store/services/movement.service.ts:184-193 | taking a movement back in its own line order succeeds exactly when each put is covered by the earlier stock and the later lines there |
| Stock.UndoRestores | src/modules/hotel-store/services/movement.service.ts:184-193 | a movement taken back leaves every position as it was |
| Stock.UnmixedUndo | src/modules/hotel-store/services/movement.service.ts:184-193 | a movement without a position on both sides can always be taken back at once |
| Kardex.ExpectedStock | src/modules/hotel-store/services/kardex-rules.ts:113-133 | the loop yields the signed line sum at every position, and lists exactly the positions some line touches |
| Kardex.LedgerNetUnordered | src/modules/hotel-store/services/kardex-rules.ts:113-133 | expected stock depends on the multiset of movements, not on their order |
| Kardex.LedgerNetSplit | src/modules/hotel-store/services/kardex-rules.ts:113-133 | expected stock of two logs together is the sum of each |
| Kardex.DiffStock | src/modules/hotel-store/services/kardex-rules.ts:141-156 | each position where stock and expectation differ is reported once, with both quantities, and no other is; missing rows count as zero |
| Kardex.ByPositionQty | src/modules/hotel-store/services/kardex-rules.ts:142 | with unique positions the lookup map gives the stock of each position, zero when there is no row |
| Ledger.DraftWellFormed | src/modules/hotel-store/services/movement.service.ts:93-139 | a request that passes the shape rules becomes a movement whose lines have positive quantities and exactly the locations their type calls for, distinct ones within a warehouse, pending only for adjustments |
| Ledger.ByRequestFinds | src/modules/hotel-store/services/movement.service.ts:57-60 | looking a request key up finds a movement with that key, and none only when no movement has it |
| Ledger.ApplyInTransactionKeeps | src/modules/hotel-store/services/movement.service.ts:81-171 | posting inside a transaction keeps stock equal to the active movements, non-negative, and request keys unique |
| Ledger.PostKeeps | src/modules/hotel-store/services/movement.service.ts:55-75 | posting keeps the ledger invariant, a repeated request key included |
| Ledger.CancelKeeps | src/modules/hotel-store/services/movement.service.ts:174-202 | cancelling keeps the ledger invariant |
| Ledger.ApproveKeeps | src/modules/hotel-store/services/movement.service.ts:205-227 | approving a pending adjustment keeps stock equal to the active movements, non-negative, and request keys unique |
| Ledger.RejectKeeps | src/modules/hotel-store/services/movement.service.ts:230-239 | rejecting a pending adjustment keeps the ledger invariant without moving stock |
| LedgerLaws.AcceptedExactlyWhenCovered | src/modules/hotel-store/services/movement.service.ts:81-146 | a one-sided movement or one between two warehouses is accepted exactly when, per product and source location, stock covers the sum of its lines; the only refusal left is a shortage |
| LedgerLaws.CancelErases | src/modules/hotel-store/services/movement.service.ts:174-202 | after a cancellation stock is what all the other movements imply, as if the cancelled one had never been posted |
| LedgerLaws.PostThenCancel | src/modules/hotel-store/services/movement.service.ts:174-202 | cancelling right after posting succeeds exactly under the stated cover of each put, always for one-sided types and distinct warehouses, and restores all stock |
| LedgerLaws.SameWarehouseChainNotCancellable | src/modules/hotel-store/services/movement.service.ts:184-193 | a chain within one warehouse is accepted and its immediate cancellation refused for stock |
| LedgerLaws.ActiveOnlyNet | src/modules/hotel-store/services/stock.service.ts:22-40 | pending and cancelled movements contribute nothing to expected stock |
| LedgerLaws.Reconcile | src/modules/hotel-store/services/stock.service.ts:22-49 | reports a visible position exactly when stock differs there from the active movements, and nothing when stock and ledger are in step |
| MovementLaws.ShapeExactly | src/modules/hotel-store/services/kardex-rules.ts:59-80 | a request has the right shape exactly when it has lines of positive quantity and, type by type, the source, target, room and reason the type asks for and no side it excludes |
| MovementLaws.LinesExactly | src/modules/hotel-store/services/movement.service.ts:93-131 | the lines of a request are settled exactly when each is accepted on its own; each then keeps its product and quantity and gets the cost and the locations its type calls for, given or default, active and the warehouse's own |
| MovementLaws.PostMoves | src/modules/hotel-store/services/movement.service.ts:81-171 | an accepted request becomes one movement that carries it; an adjustment above a limit waits and leaves stock alone, any other adds its lines into each position and takes its lines out, as its named type says |
| MovementLaws.PostAccepts | src/modules/hotel-store/services/movement.service.ts:81-146 | a request is accepted exactly when each line is, and the movement waits or every take-out is covered at its turn |
| MovementLaws.PostsExactly | src/modules/hotel-store/services/movement.service.ts:55-75 | a post with a new key is accepted exactly for a type that may be posted, in the right shape, that can be applied |
| MovementLaws.ApproveExactly | src/modules/hotel-store/services/movement.service.ts:205-227 | an approval is accepted exactly for a pending movement whose demand, if it takes out, is covered; it makes that movement active, no other changes, and stock changes by what the movement adds |
| MovementLaws.RejectExactly | src/modules/hotel-store/services/movement.service.ts:230-239 | a rejection is accepted exactly for a pending movement, cancels that one and leaves stock alone |
| MovementLaws.CancelExactly | src/modules/hotel-store/services/movement.service.ts:174-202 | a cancellation is accepted exactly for an active movement of a cancellable type whose lines can be taken back one by one, cancels that one and takes away what it had added |
| MovementLaws.OnlyDecisionsChange | src/modules/hotel-store/services/movement.service.ts:174-239 | after any run a movement differs from before at most by the status of the last accepted approval, rejection or cancellation of it |
| MovementLaws.PendingAddsWhenApproved | src/modules/hotel-store/services/movement.service.ts:205-227 | after any run stock is what the other movements imply plus what a once pending movement adds, the latter exactly when the last decision on it was an approval |
| MovementLaws.ApprovedOnce | src/modules/hotel-store/services/movement.service.ts:205-210 | once approved a movement cannot be approved again, after any run |
| MovementService.HotelMovementService.Move | src/modules/hotel-store/services/movement.service.ts:285-298 | adds to the row of a position or creates it, refusing what the row does not cover and then changing nothing |
| MovementService.HotelMovementService.Resolve | src/modules/hotel-store/services/movement.service.ts:93-131 | settles each line against products and locations, answering with the first error |
| MovementService.HotelMovementService.Totals | src/modules/hotel-store/services/movement.service.ts:135-138 | the totals of quantity and cost of the lines, a missing cost counting as zero |
| MovementService.HotelMovementService.ApplyInTransaction | src/modules/hotel-store/services/movement.service.ts:81-171 | the row-by-row code computes the ledger step: new stock, new movement, or the error with no movement written |
| MovementService.HotelMovementService.ApplyLines | src/modules/hotel-store/services/movement.service.ts:141-146 | taking each line out of its source and then into its target is applying the movement as a whole |
| MovementService.HotelMovementService.RevertLines | src/modules/hotel-store/services/movement.service.ts:184-193 | putting each line back and taking it out of its target, in line order, is applying the opposite of the movement |
| MovementService.HotelMovementService.Post | src/modules/hotel-store/services/movement.service.ts:55-75 | a post commits the ledger step or leaves stock and log as they were |
| MovementService.HotelMovementService.Cancel | src/modules/hotel-store/services/movement.service.ts:174-202 | a cancellation commits the reversal and the status, or changes nothing |
| MovementService.HotelMovementService.Approve | src/modules/hotel-store/services/movement.service.ts:205-227 | an approval applies the pending lines and the status, or changes nothing |
| MovementService.HotelMovementService.Reject | src/modules/hotel-store/services/movement.service.ts:230-239 | a rejection cancels a pending adjustment and moves no stock |
| MovementService.ApplyConcat | src/modules/hotel-store/services/movement.service.ts:141-146 | applying two stretches of lines one after the other is applying them together |
| StocktakeLaws.PhotoShowsStock | src/modules/hotel-store/services/stocktake.service.ts:86-112 | the photo has one line per stocked position of the warehouse, with that position's stock, and misses none |
| StocktakeLaws.SetCountLines | src/modules/hotel-store/services/stocktake.service.ts:122-140 | recording a count changes no photographed quantity; a position without a line gets one that starts at zero with the count |
| StocktakeLaws.CaptureShowsStock | src/modules/hotel-store/services/stocktake.service.ts:115-142 | after any captures every line still shows the stock of photo time, lines added later included |
| StocktakeLaws.StartPhotographs | src/modules/hotel-store/services/stocktake.service.ts:86-112 | starting a count photographs the ledger as it is |
| StocktakeLaws.SinceNet | src/modules/hotel-store/services/stocktake.service.ts:238-264 | the movements-since of a position is the sum of the active movements created after the photo |
| StocktakeLaws.FlippedIsChange | src/modules/hotel-store/services/stocktake.service.ts:238-264 | what the older movements contribute now is what they contributed at the photo plus those whose active status changed |
| StocktakeLaws.DifferenceMeaning | src/modules/hotel-store/services/stocktake.service.ts:177-190 | stock now plus the computed difference of a line is its count plus the status changes since the photo |
| StocktakeLaws.AdjustmentNet | src/modules/hotel-store/services/stocktake-rules.ts:49-54 | the two adjustments together add each line's difference at its position, once, and nothing elsewhere |
| StocktakeLaws.PostAdjustmentsApply | src/modules/hotel-store/services/stocktake.service.ts:190-212 | posting inbound and then outbound adds exactly the differences, and is short of stock only where their sum goes below zero |
| StocktakeLaws.ApprovalLeavesCounts | src/modules/hotel-store/services/stocktake.service.ts:165-222 | an approval leaves each counted position at its count plus the status changes since the photo, never negative, and other positions untouched |
| StocktakeLaws.ApprovalShortOnlyByFlips | src/modules/hotel-store/services/stocktake.service.ts:165-222 | an approval is refused for stock only if status changes since the photo take some count below zero |
| CountLaws.CaptureRecords | src/modules/hotel-store/services/stocktake.service.ts:122-140 | after an accepted capture each line it names holds the last quantity given for it, and every other line its count |
| CountLaws.CaptureAccepts | src/modules/hotel-store/services/stocktake.service.ts:122-130 | a capture is accepted exactly when no quantity is negative and every location is an active one of the warehouse |
| CountLaws.PhotoExactly | src/modules/hotel-store/services/stocktake.service.ts:91-104 | the photo has a line for a product and location exactly when they have stock |
| CountLaws.LinesHoldCaptures | src/modules/hotel-store/services/stocktake.service.ts:115-142 | after any run since the start each line holds the last quantity captured for it, and every captured position has a line |
| CountLaws.CapturesBecomeStock | src/modules/hotel-store/services/stocktake.service.ts:165-222 | whatever ran since the start, an approval leaves at each captured position the last quantity captured plus the status changes of older movements, and every other position as it was |
| CountLaws.UndisturbedCaptures | src/modules/hotel-store/services/stocktake.service.ts:165-222 | without such status changes the approval leaves exactly the quantity last captured |
| CountLaws.OpensCountExactly | src/modules/hotel-store/services/stocktake.service.ts:43-62 | a count is opened exactly for an active warehouse without an open one |
| CountLaws.CountAdvancesExactly | src/modules/hotel-store/services/stocktake.service.ts:86-235 | a call on a count is accepted only in the status it asks for, always then but for a posting that fails, and moves that count alone to the next status |
| CountLaws.ApprovalPosts | src/modules/hotel-store/services/stocktake.service.ts:190-212 | an approval adds at most one inward and one outward adjustment, active, of its warehouse, with the count and the reason of counts |
| CountLaws.FourEyes | src/modules/hotel-store/services/stocktake.service.ts:165-174 | after any run whoever closed a count cannot approve it without permission to |
| StocktakeService.HotelStocktakeService.Create | src/modules/hotel-store/services/stocktake.service.ts:43-62 | opens a count of an active warehouse that has none open, or changes nothing |
| StocktakeService.HotelStocktakeService.Start | src/modules/hotel-store/services/stocktake.service.ts:86-112 | the loop over stock rows takes the photo and opens the count, or changes nothing |
| StocktakeService.HotelStocktakeService.Capture | src/modules/hotel-store/services/stocktake.service.ts:115-142 | records counts in order; one bad count rolls all of them back |
| StocktakeService.HotelStocktakeService.Close | src/modules/hotel-store/services/stocktake.service.ts:145-158 | closes only a count whose lines are all counted |
| StocktakeService.HotelStocktakeService.MovementsSince | src/modules/hotel-store/services/stocktake.service.ts:238-264 | the map holds, per product and location, the signed sum of the warehouse's active movements after the photo |
| StocktakeService.HotelStocktakeService.Differences | src/modules/hotel-store/services/stocktake.service.ts:177-190 | the lines with a difference, in order, each with counted minus photo minus movements since |
| StocktakeService.HotelStocktakeService.Approve | src/modules/hotel-store/services/stocktake.service.ts:165-222 | an approval commits its adjustments and the status in one transaction, or changes nothing |
| StocktakeService.HotelStocktakeService.Cancel | src/modules/hotel-store/services/stocktake.service.ts:224-235 | cancels an open count only |
| HousekeepingService.HotelHousekeepingService.OpenForRoom | src/modules/hotel-store/services/housekeeping.service.ts:51-96 | opens one task for a room without an open one, with the kit lines that apply, the inspection its type and zones ask for, and the kit alert when a checkout or stay has no active kit |
| TaskLife.OpensExactly | src/modules/hotel-store/services/housekeeping.service.ts:51-96 | a task opens exactly when the room has none pending or in progress; it is pending and unassigned, carries the kit alert exactly for a checkout or stay without active kit, and asks for inspection exactly when the type, the zone or one above does |
| HousekeepingService.HotelHousekeepingService.LastUsedByProduct | src/modules/hotel-store/services/housekeeping.service.ts:336-349 | the map holds, per product, the latest finish of a task of the room that used it, and no other product |
| HousekeepingService.HotelHousekeepingService.ResolveKitLines | src/modules/hotel-store/services/hotel-catalog-rules.ts:52-67 | keeps the kit lines that apply to the cleaning, in order |
| HousekeepingService.HotelHousekeepingService.InspectionFor | src/modules/hotel-store/services/rooms.service.ts:79-92 | a task needs inspection when the room type, the room's zone or a zone above asks for it |
| TaskLaws.LastUsedIsLatest | src/modules/hotel-store/services/housekeeping.service.ts:336-349 | the last use of a product is some finished task's and no finished task used it later |
| TaskLaws.KitLineIsIncluded | src/modules/hotel-store/services/hotel-catalog-rules.ts:52-67 | a product is handed out exactly when some kit line of it applies |
| TaskLife.LastUseExactly | src/modules/hotel-store/services/housekeeping.service.ts:336-349 | the last use of a product in a room is the latest finish of a finished task of that room that lists it, and there is none without such a task |
| TaskLife.AppliesExactly | src/modules/hotel-store/services/hotel-catalog-rules.ts:52-67 | a kit line applies by its frequency: to every cleaning but a turndown, to checkouts, or to a checkout and to a stay N days or more after the last use |
| TaskLife.KitTotal | src/modules/hotel-store/services/hotel-catalog-rules.ts:52-67 | a task gets of each product the total of the kit lines that are due and nothing else |
| TaskLife.ManualExactly | src/modules/hotel-store/services/housekeeping.service.ts:99-112 | a manual task is accepted exactly for an active room without an open task, with an active kit for a stay |
| TaskLife.AssignsExactly | src/modules/hotel-store/services/housekeeping.service.ts:137-143 | assigning is accepted exactly for a pending task and someone with an active cart, and writes the assignee alone |
| TaskLife.StartsExactly | src/modules/hotel-store/services/housekeeping.service.ts:146-156 | starting is accepted exactly for a pending task whose assignee has an active cart, and fixes such a cart |
| TaskLife.CartIsFixed | src/modules/hotel-store/services/housekeeping.service.ts:146-156 | after any run a started task still has the assignee and the cart it started with, the assignee's own and active at the start |
| TaskLife.ExtrasExactly | src/modules/hotel-store/services/housekeeping.service.ts:159-182 | an extra is accepted exactly for an open task and an active product that is no equipment, in whole units where asked, and adds to that product alone |
| TaskLife.DropsExactly | src/modules/hotel-store/services/housekeeping.service.ts:264-276 | cancelling is accepted exactly for a pending task or one in progress and writes its status alone |
| HousekeepingService.HotelHousekeepingService.CreateManual | src/modules/hotel-store/services/housekeeping.service.ts:99-112 | a manual task needs an active room, and a stay an active kit |
| HousekeepingService.HotelHousekeepingService.Assign | src/modules/hotel-store/services/housekeeping.service.ts:137-143 | assigns a pending task to someone with an active cart of their own |
| HousekeepingService.HotelHousekeepingService.Start | src/modules/hotel-store/services/housekeeping.service.ts:146-156 | starting fixes the assignee's cart |
| HousekeepingService.HotelHousekeepingService.AddExtra | src/modules/hotel-store/services/housekeeping.service.ts:159-182 | adds an extra to an open task, on the product's extra line when there is one |
| TaskLaws.ExtraAdds | src/modules/hotel-store/services/housekeeping.service.ts:170-180 | an extra adds its quantity to its product alone, leaves the kit lines, and never makes a second extra line of a product |
| HousekeepingService.HotelHousekeepingService.SplitLinenLines | src/modules/hotel-store/services/task-rules.ts:37-40 | linen lines travel, the others are consumed, each in order |
| HousekeepingService.HotelHousekeepingService.Finish | src/modules/hotel-store/services/housekeeping.service.ts:189-262 | a finish commits consumption, linen, room and task together, changes nothing when refused or repeated |
| HousekeepingService.HotelHousekeepingService.Cancel | src/modules/hotel-store/services/housekeeping.service.ts:264-276 | cancels an open task only |
| HousekeepingService.HotelHousekeepingService.Inspect | src/modules/hotel-store/services/housekeeping.service.ts:283-334 | inspects once a finished task whose room waits; a rejection needs a reason and opens a rework task |
| HousekeepingService.HotelHousekeepingService.CreateRoom | src/modules/hotel-store/services/rooms.service.ts:336-377 | a room is created on an active floor of the caller's zones with an active type, and starts with one history row holding its first status |
| HousekeepingService.HotelHousekeepingService.ScopeHolds | src/modules/hotel-store/services/rooms.service.ts:66-69 | a zone is in scope always for all zones, never for none, and for an area exactly when climbing from it meets a supervised zone |
| TaskLife.ScopeExactly | src/modules/hotel-store/services/rooms.service.ts:40-69 | a zone is in scope exactly when the scope is all zones or climbing from the zone meets a supervised one |
| TaskLife.OutOfScopeRefused | src/modules/hotel-store/services/rooms.service.ts:422 | out of scope every change of status is refused |
| HousekeepingService.HotelHousekeepingService.ChangeStatus | src/modules/hotel-store/services/rooms.service.ts:417-484 | a status change within the caller's zones follows the active rule and its permission, kit and reason, writes room and history, and opens the cleaning task, or changes nothing |
| TaskLaws.SplitTotals | src/modules/hotel-store/services/task-rules.ts:37-40 | per product, consumed and linen lines add up to the task's lines |
| TaskLaws.FinishPosts | src/modules/hotel-store/services/housekeeping.service.ts:201-252 | a finish adds to the task movements, per product, exactly the task's lines, and records the movements it posted |
| LinenLaws.SplitByKind | src/modules/hotel-store/services/task-rules.ts:37-40 | the linen lines carry all of a product whose kind is linen and nothing of another, the consumed lines the reverse |
| LinenLaws.FinishSplits | src/modules/hotel-store/services/housekeeping.service.ts:201-232 | a finish consumes from the cart all of a product that is not linen, which leaves the hotel, and moves all of a linen product from the cart to an active laundry, which leaves the hotel-wide stock as it was |
| TaskLife.FinishesExactly | src/modules/hotel-store/services/housekeeping.service.ts:189-262 | a task in progress is finished exactly by its assignee or a manager, without the kit alert of a checkout, when its movements can be posted; its room, if still cleaning, goes to inspection after a rework or when asked for, stays after a stay, and is available otherwise |
| TaskLife.InspectsExactly | src/modules/hotel-store/services/housekeeping.service.ts:283-334 | a finished task is inspected exactly once while its room waits; an approval makes the room available, a rejection with a reason sends it back to cleaning and opens a rework task without lines |
| TaskLife.CreatesRoomExactly | src/modules/hotel-store/services/rooms.service.ts:336-377 | a room is created exactly on an active floor in scope with an active type, with one row of history |
| TaskLife.ChangesExactly | src/modules/hotel-store/services/rooms.service.ts:417-472 | a change of status is accepted exactly when the first active rule for it allows the caller, the kit and the reason, and the task it opens can open; leaving an occupied room opens a checkout, leaving maintenance or out of service a turndown |
| TaskLife.RoomMovesForAReason | src/modules/hotel-store/services/rooms.service.ts:417-472 | in any call a room's status and history stay, or move once by a rule, by the end of its cleaning or by an inspection |
| TaskLaws.ExecTasksStep | src/modules/hotel-store/services/housekeeping.service.ts:137-334 | in any call a finished task changes at most by being inspected, a cancelled one not at all, and only a finish finishes a task |
| TaskLaws.ExecKeepsTasks | src/modules/hotel-store/services/housekeeping.service.ts:189-262 | in any call, per product, task movements keep adding up to the lines of finished tasks |
| TaskLaws.HotelWideTotal | src/modules/hotel-store/services/housekeeping.service.ts:220-232 | a movement changes a product's hotel-wide stock by its lines: up for an initial load, an inbound or an inward adjustment, down for a consumption, an outward adjustment or a write-off, and not at all for a transfer or a linen exchange |
| HotelLaws.MoveRoomChained | src/modules/hotel-store/services/rooms.service.ts:450-472 | moving a room to another status extends its chain of history |
| HotelLaws.ExecKeepsRooms | src/modules/hotel-store/services/rooms.service.ts:349-377 | in any call every room's history stays a connected chain without self-steps that ends in the room's status |
| HotelLaws.ExecKeepsLedger | src/modules/hotel-store/services/movement.service.ts:55-239 | in any call the ledger keeps its invariant and the log only grows, by movements of that time, with statuses moving forward only; only a finish adds task movements |
| HotelLaws.ExecKeepsStocktakes | src/modules/hotel-store/services/stocktake.service.ts:43-235 | in any call no warehouse gets two open counts, closed counts never change, and pending counts are fully counted |
| RunLaws.StepKeeps | src/modules/hotel-store/services/movement.service.ts:55-239 | every call of the store keeps the invariants of ledger, counts, tasks and rooms |
| RunLaws.ReachableStates | src/modules/hotel-store/services/stock.service.ts:22-49 | in every reachable state stock is the signed sum of the active movements and not negative, task movements are active and match finished tasks, rooms are chained, and no warehouse has two open counts |
| RunLaws.RunContinues | src/modules/hotel-store/services/movement.service.ts:55-239 | over any run the log keeps its movements, which change only in status, and adds later ones |
| RunLaws.RequestKeyPostsOnce | src/modules/hotel-store/services/movement.service.ts:57-60 | after any run, posting again with a request key answers with the first movement and writes nothing |
| RunLaws.CancelUndoesPost | src/modules/hotel-store/services/movement.service.ts:174-202 | whatever ran in between, a cancellation takes away exactly what the posting had added |
| RunLaws.FinishConsumesOnce | src/modules/hotel-store/services/housekeeping.service.ts:189-200 | after any run, finishing a finished task changes nothing, and its lines and movements are those of the first finish |
| RunLaws.StayWaitsForFrequency | src/modules/hotel-store/services/hotel-catalog-rules.ts:52-67 | after any run, a stay less than N days after a finished task of the room used a product gets none of it from every-N-days lines |
| RunLaws.LinesShowThePhoto | src/modules/hotel-store/services/stocktake.service.ts:86-142 | after any run since the start every line of a count shows the stock of photo time, and every position stocked then has its line |
| RunLaws.ApprovedCount | src/modules/hotel-store/services/stocktake.service.ts:165-264 | after any run since the photo, an approval leaves counts plus status changes and nothing else, and is short of stock only if those take a count below zero |
| RunLaws.UndisturbedCount | src/modules/hotel-store/services/stocktake.service.ts:177-212 | when no movement older than the photo changed its active status, an approval leaves exactly the counts and is never short of stock |
| Zones.NoZoneAboveItself | src/modules/hotel-store/services/rooms.service.ts:112-125 | in an acyclic graph no zone is reached by climbing from itself |
| ZoneEdits.EditKeeps | src/modules/hotel-store/services/rooms.service.ts:127-204 | every accepted creation, update or removal keeps the parent graph acyclic and only floors below others |
| ZoneEdits.EditsExactly | src/modules/hotel-store/services/rooms.service.ts:110-204 | a call on zones passes its checks exactly under the parent rule and, to deactivate, without active rooms or children; done at once it writes the fields given and no other zone |
| ZoneEdits.ReachableAcyclic | src/modules/hotel-store/services/rooms.service.ts:127-204 | after any run of calls, each finished before the next, the parent graph is acyclic |
| ZoneEdits.InTurnIsASchedule | src/modules/hotel-store/services/rooms.service.ts:127-204 | such a run is a schedule of checks and writes with never more than one call open, and leaves the same table |
| ZoneEdits.WriteKeepsExactly | src/modules/hotel-store/services/rooms.service.ts:166-177 | a write, whatever its check read, keeps an acyclic graph acyclic exactly when the parent it gives does not lie below the zone |
| ZoneEdits.AcyclicExactlyUnlessClosed | src/modules/hotel-store/services/rooms.service.ts:127-204 | over any schedule of checks and writes the graph stays acyclic exactly when no write closes a ring as it lands |
| ZoneEdits.OneRehangKeeps | src/modules/hotel-store/services/rooms.service.ts:127-204 | while at most one call that gives a kind or a parent is open at a time, among any others, the graph stays acyclic, only floors have parents, and open writes still obey the parent rule |
| ZoneEdits.AcyclicExactlyOneAtATime | src/modules/hotel-store/services/rooms.service.ts:127-204 | with at most n such calls open at a time the graph is acyclic over all schedules exactly when n is at most one |
| ZoneEdits.CrossedUpdatesCloseARing | src/modules/hotel-store/services/rooms.service.ts:148-177 | two updates, both checked before either is written, leave two buildings below each other, and climbing from either never stops |
| ZoneEdits.DepthUnbounded | src/modules/hotel-store/services/rooms.service.ts:148-165 | for every depth there is a run of accepted edits that nests zones that deep |
| Zones.AcyclicStops | src/modules/hotel-store/services/rooms.service.ts:86-91 | on an acyclic graph climbing stops |
| Zones.InspectionRequired | src/modules/hotel-store/services/rooms.service.ts:79-92 | the ancestor loop, where climbing stops, answers whether the type, the zone or some ancestor asks for inspection |
| Zones.ByParent | src/modules/hotel-store/services/rooms.service.ts:49-55 | the map lists under each parent exactly its children |
| Zones.Walk | src/modules/hotel-store/services/rooms.service.ts:56-61 | the walk ends on any graph, adds only zones below its start, and leaves no child of what it adds behind |
| Zones.VisibleZoneIds | src/modules/hotel-store/services/rooms.service.ts:40-64 | the visible zones are exactly those from which climbing meets an assigned zone |
| ZoneEdits.ZoneTable.CheckCreate | src/modules/hotel-store/services/rooms.service.ts:110-136 | refuses a parent against the rule and otherwise goes on to its write |
| ZoneEdits.ZoneTable.CheckUpdate | src/modules/hotel-store/services/rooms.service.ts:148-165 | refuses an unknown zone, a parent against the rule, or to deactivate a zone with active rooms or children, and otherwise goes on to its write |
| ZoneEdits.ZoneTable.CheckRemove | src/modules/hotel-store/services/rooms.service.ts:188-195 | refuses an unknown zone or one with active rooms or children and otherwise goes on to its write |
| ZoneEdits.ZoneTable.WriteZone | src/modules/hotel-store/services/rooms.service.ts:137-177 | inserts the zone or writes the fields given, whatever has become of the table since the check |
| AccessLog.AccessService.Create | src/modules/access/services/access.service.ts:129-279 | registers through idempotency, scan and employee, site, duplicate and sequence checks in that order, or changes nothing |
| AccessLog.AccessService.VoidOne | src/modules/access/services/access.service.ts:407-450 | voids an event and answers whether it already was |
| AccessLog.ClientKeyRegistersOnce | src/modules/access/services/access.service.ts:133-138 | after any run the same client key answers with the first event, adds nothing and is never refused |
| AccessLog.LastKindIsLive | src/modules/access/services/access.service.ts:187-191 | the event the sequence rule looks at is the last of the employee's events that are not voided |
| AccessLog.RegisterAlternates | src/modules/access/services/access.service.ts:187-197 | a registered event never repeats the kind before it, nor disturbs other employees |
| AccessLog.VoidRepeatsOnce | src/modules/access/services/access.service.ts:407-450 | voiding an event creates at most one repetition of a kind |
| AccessLog.RunLogKeeps | src/modules/access/services/access.service.ts:187-197 | over any run an employee's live log repeats a kind at most as often as events were voided |
| AccessLog.RunLogOrdered | src/modules/access/services/access.service.ts:213-216 | with a clock that moves on, the log stays in time order |
| AccessLog.LiveOrdered | src/modules/access/services/access-report.service.ts:336-346 | an employee's live events come in time order |
| AccessLaws.RegistersExactly | src/modules/access/services/access.service.ts:129-279 | a request with a new key is accepted exactly when it names one active employee at an active site, repeats no live event of the window, is an exit exactly when the employee's live events end with an entry, and has a valid time; it appends that event |
| AccessLaws.VoidsExactly | src/modules/access/services/access.service.ts:407-450 | voiding takes the event out of its employee's live events and leaves all others |
| AccessReport.Pair | src/modules/access/services/access-report.service.ts:355-382 | the loop with one open entry yields the recursively defined sessions |
| AccessReport.PairRoundTrip | src/modules/access/services/access-report.service.ts:355-382 | reading the sessions back gives every event once, in order |
| AccessReport.SessionsInOrder | src/modules/access/services/access-report.service.ts:355-382 | sessions of events in time order are in time order and do not overlap |
| AccessReport.InOrderMeans | src/modules/access/services/access-report.service.ts:355-382 | being in order means that each session ends before any later one starts |
| AccessReport.PairLooksAtNeighbours | src/modules/access/services/access-report.service.ts:355-382 | pairing equals looking at neighbours: a session is complete exactly for an entry directly followed by an exit |
| AccessReport.IncidentsAreRepeats | src/modules/access/services/access-report.service.ts:359-379 | incidents are the repetitions of a kind plus one for a final open entry |
| AccessReport.NoRepeatsAlternate | src/modules/access/services/access.service.ts:187-197 | a log without repetitions strictly alternates |
| AccessReport.IncidentsBoundedByVoids | src/modules/access/services/access-report.service.ts:355-382 | over any run, incidents are at most the voided events plus one for a final open entry; without voids the log alternates, entry first |
| WorkedTime.SessionsTell | src/modules/access/services/access-report.service.ts:384-398 | every session's minutes are the time between its ends to the nearest minute, none with one end; it crosses midnight exactly when the local dates of its ends differ; a complete session has no incident, an exit alone its own, and an entry alone is open exactly as the last of a period that is not over |
| WorkedTime.WorkedMinutesAreTime | src/modules/access/services/access-report.service.ts:405-419 | for events in time order the minutes of a period are not negative and within half a minute per complete session of the time between the ends |
| WorkedTime.PersonTotals | src/modules/access/services/access-report.service.ts:355-444 | pairing and adding up gives such minutes |
| WorkedTime.DaysAreReported | src/modules/access/services/access-report.service.ts:423-424 | the days with records are the local dates of the sessions' entries, or of exits without entry |
| AccessWindow.SliceIsContiguous | src/modules/access/services/access-report.service.ts:336-346 | the loaded events of a time-ordered log are one stretch of it |
| AccessWindow.LoadedExactly | src/modules/access/services/access-report.service.ts:153-161 | the report loads exactly the events from seven days before its period to one day after it |
| AccessWindow.PeriodOfPairing | src/modules/access/services/access-report.service.ts:400-403 | the reported sessions are those started by the events of the period |
| AccessWindow.SlicesAgree | src/modules/access/services/access-report.service.ts:153-176 | slice and log give the same sessions exactly when no needed entry precedes the slice and no needed follower comes after it |
| AccessWindow.WindowCorrect | src/modules/access/services/access-report.service.ts:153-176 | the period's sessions from the loaded slice are those from the whole log exactly under that condition on the two ends |
| AccessWindow.WindowSuffices | src/modules/access/services/access-report.service.ts:153-176 | the slice suffices when it holds an event from before the period and whatever follows an entry of the period |
| AccessWindow.EntryBeforeTheSlice | src/modules/access/services/access-report.service.ts:153-161 | with the entry eight days before the period the slice reports an exit without entry and the log nothing |
| AccessWindow.FollowerAfterTheSlice | src/modules/access/services/access-report.service.ts:153-161 | with the exit two days after the period the slice reports an entry without exit and the log a complete session |
| AccessTotals.Aggregate | src/modules/access/services/access-report.service.ts:405-444 | the loop gives the sums, first entry, last exit, distinct days and incidents of the sessions of the period |
| AccessTotals.FirstEntryIsEarliest | src/modules/access/services/access-report.service.ts:420 | the first entry is some session's entry and no session has an earlier one |
| AccessTotals.LastExitIsLatest | src/modules/access/services/access-report.service.ts:421 | the last exit is some session's exit and no session has a later one |
| AccessTotals.IncidentsAreReported | src/modules/access/services/access-report.service.ts:422 | the incident set holds exactly the incidents of the sessions |
| AccessTotals.BuildSessionRows | src/modules/access/services/access-report.service.ts:182-213 | the nested loops list one row per session of the period, person by person |
| AccessTotals.RowsAddUpToTotals | src/modules/access/services/access-report.service.ts:182-213 | a person's rows add up to the person's minutes and session count; people not listed have no row |
| Calendar.DayFromYearFormula | src/core/utils/timezone.ts:158-161 | adding up year lengths gives the closed formula of section 21.4.1.3 of ECMA-262 |
| Calendar.FromDayInverse | src/core/utils/timezone.ts:158-161 | turning a date into its day and back gives the date |
| Calendar.DayNumberOrders | src/core/utils/timezone.ts:158-161 | days order real dates as the calendar does |
| Calendar.ValidDateKeys | src/core/utils/timezone.ts:129-140 | the accepted keys are exactly the real dates of the years 100 to 9999 |
| Calendar.SpanContains | src/core/utils/timezone.ts:237-264 | a period contains its day; a week has seven days and starts on the configured weekday |
| Calendar.SpansCoincideOrDisjoint | src/core/utils/timezone.ts:237-264 | the periods of two days coincide or do not overlap |
| Calendar.SpansInOrder | src/core/utils/timezone.ts:237-264 | of two days the later has the same period or one that starts when the earlier one's is over |
| Calendar.SpansTile | src/core/utils/timezone.ts:237-264 | each period starts where the one before ends |
| CalendarLaws.SpansExactly | src/core/utils/timezone.ts:226-264 | of two days the later is in the period of the earlier exactly when they are one day, no week starts between them, or they share the month, or its first fifteen days or its rest |
| CalendarLaws.MonthsHave | src/core/utils/timezone.ts:158-166 | the months have the lengths of the Gregorian calendar |
| CalendarLaws.LeapYears | src/core/utils/timezone.ts:158-161 | every fourth year is a leap year, but of the centuries only every fourth |
| CalendarLaws.Anchor2000 | src/core/utils/timezone.ts:243-245 | the first of January 2000 is day 10957, a Saturday |
| Calendar.AddMonthsNext | src/core/utils/timezone.ts:163-166 | adding a month reaches the first day after the month, December included |
| Calendar.RangeIsSpan | src/core/utils/timezone.ts:226-287 | the range resolved for a date is its period, and contains it, exactly when the period starts in the year 100 or later |
| Calendar.FirstWeekOfYear100 | src/core/utils/timezone.ts:237-248 | the ISO week of the first of January of the year 100 resolves to a range that starts after it |
| LocalTime.TwoPassesExact | src/core/utils/timezone.ts:195-201 | with at most one offset change nearby the two passes are exact exactly when the local time exists, and otherwise miss by the gap |
| LocalTime.SkippedMidnightMissed | src/core/utils/timezone.ts:195-201 | where the clocks skip midnight the instant taken is one hour short of it and on the day before |
| LocalTime.MidnightOnItsDate | src/core/utils/timezone.ts:218-219 | the start of a local day is midnight of that date unless that midnight is skipped |
| LocalTime.RangesTile | src/core/utils/timezone.ts:271-287 | in any zone a range starts at the instant the one before ends |
| LocalTime.SamePeriodSameRange | src/core/utils/timezone.ts:271-287 | in any zone dates of one period have one range |
| LocalTime.RangeHoldsItsDate | src/core/utils/timezone.ts:271-287 | the range of a date holds the date's midnight exactly when the offset gains at most the time since the period's first midnight and less than the time to its last, as whenever it varies by less than a day around the period |
| LocalTime.RangesDisjoint | src/core/utils/timezone.ts:271-287 | dates of one period share one range; otherwise the earlier range is over when the later starts exactly when the offset gains at most the time between the two facing midnights, as whenever it varies by at most a day there |
| LocalTime.MidnightsInOrder | src/core/utils/timezone.ts:195-201 | two local midnights are in order exactly when the offset gains less than the time between them |
| LocalTime.MidnightsOutOfOrderExactly | src/core/utils/timezone.ts:195-201 | around one change two midnights are out of order, or coincide, exactly when the change skips more than the time between them, or just that, and one of them is skipped and read on the far side of the change from the other |
| LocalTime.RangeEmptyExactly | src/core/utils/timezone.ts:271-287 | around one change a range holds no instant exactly when the change skips the length of the period or more and its two midnights straddle it |
| LocalTime.ReadExactly | src/core/utils/timezone.ts:169-201 | the offset read off formatted local parts gives the passes of the zone's offset exactly when both look at local dates from the year 100 on |
| LocalTime.MidnightsAreRead | src/core/utils/timezone.ts:169-201 | from 3 January 0100 on every midnight is the one of the zone's offset |
| LocalTime.FirstMidnightMisread | src/core/utils/timezone.ts:169-201 | west of UTC the midnight of 1 January 0100 is not |
| LocalTime.DayBeforeSkippedDayIsEmpty | src/core/utils/timezone.ts:226-229 | where a zone skips a day the day before gets an empty range although instants have its date |
| LocalTime.SplitsExactly | src/core/utils/timezone.ts:195-201 | the instant taken for a local time is the first from which the clock shows it or later, for good, exactly when the time is not skipped or repeated, but for the two cases at the edge |
| LocalTime.RangeCollectsItsDates | src/core/utils/timezone.ts:204-215 | the instants whose local date lies in a week, fortnight or month are those of its range exactly when both its midnights split time |
| LocalTime.DayCollectsItsDate | src/core/utils/timezone.ts:204-215 | the instants with a local date are those of its day range exactly when neither midnight is skipped or repeated, but for the two cases at the edge |
| LocalTime.FirstMidnightLeftOut | src/core/utils/timezone.ts:226-229 | where the clocks go back to midnight the range starts at the second midnight, after instants that have its date |
| OutboxLaws.StepKeeps | src/core/services/email-queue.ts:135-215 | every step without a failed write keeps one drain, each batch row in one place, pending rows with attempts left, and no sent row still to run |
| OutboxLaws.Schedules | src/core/services/email-queue.ts:173-215 | without failed writes, over every schedule of ticks, workers and the two steps of retries and cancels no row is held twice |
| OutboxLaws.BatchRunOnce | src/core/services/email-queue.ts:173-184 | without failed writes, when a drain ends each row of its batch has run exactly once and no other has |
| OutboxLaws.BatchEndsExactly | src/core/services/email-queue.ts:173-184 | over every schedule, failed writes included, each row of a batch ends finished once, lost by its worker, or left in the queue, the last only when every worker lost its row |
| OutboxLaws.BatchRunExactly | src/core/services/email-queue.ts:173-184 | over every schedule a drain that ends has run each row of its batch exactly when none was lost to a failed write |
| OutboxLaws.PendingAlwaysHaveAttempts | src/core/services/email-queue.ts:135-170 | over every schedule, failed writes and double holders included, a pending row has attempts left |
| OutboxLaws.OnceExactlyWhenClean | src/core/services/email-queue.ts:173-215 | over any schedule, failed writes included, no row is held, or queued for a worker that is left, twice exactly when no tick polls a row that is |
| OutboxLaws.WrittenMeansClean | src/core/services/email-queue.ts:202-215 | without failed writes the flag keeps every tick from polling a row in progress |
| OutboxLaws.CleanSchedules | src/core/services/email-queue.ts:135-215 | over schedules with such ticks, failed writes included, a row has one holder at most, pending rows have attempts left, and no sent row is still to be run |
| OutboxLaws.TickExactly | src/core/services/email-queue.ts:186-197 | a tick keeps every row in one such place exactly when it is dropped or polls no row that has one |
| OutboxRows.SentExactlyUnlessLanded | src/modules/email/services/email-log.service.ts:84-112 | a sent row that no worker will run stays sent over a schedule exactly when no administrator's write lands on it |
| OutboxRows.SentExactly | src/modules/email/services/email-log.service.ts:84-112 | a sent row stays sent over all schedules exactly when no administrator's call is open on it and no worker will run it |
| OutboxRows.SentForEver | src/modules/email/services/email-log.service.ts:84-112 | where no row is in progress twice, a sent row stays sent over all schedules exactly when no administrator's call is open on it |
| OutboxRows.CancelledExactly | src/modules/email/services/email-log.service.ts:102-112 | a cancelled row that is not retried stays cancelled over all schedules exactly when no worker holds it or may still take it |
| OutboxRows.CancelledForEver | src/modules/email/services/email-log.service.ts:102-112 | in every state without failed writes, a cancelled row that is not retried stays cancelled exactly when it is neither held nor queued |
| OutboxRows.BackoffDoubles | src/core/services/email-queue.ts:109-113 | the wait after a failure doubles from the base up to a quarter of an hour and stays there |
| OutboxTimes.PolledExactly | src/core/services/email-queue.ts:186-195 | a poll takes a row exactly when it is pending, its next attempt is not in the future, and fewer older rows are due than fit in a batch |
| OutboxTimes.TickRunsPolled | src/core/services/email-queue.ts:186-215 | a tick that is not dropped puts a row in progress exactly when its poll takes it |
| OutboxTimes.BackoffIsKept | src/core/services/email-queue.ts:109-168 | after a failed run with attempts left no tick takes the row before the base doubled per attempt, or a quarter of an hour, has passed, unless an administrator's write lands on it; from then on every poll with room in its batch does |
| OutboxTimes.RowsWrittenExactly | src/core/services/email-queue.ts:135-170 | a row is written only by the run of its holder, sent, failed at the limit or pending with the backoff, and by an administrator's write, pending anew or cancelled |
| OutboxTimes.FlagExactly | src/core/services/email-queue.ts:202-215 | the drain flag is raised by a tick that finds rows and cleared by the first row a drain loses or by the end of one that lost none |
| OutboxTimes.ChecksExactly | src/modules/email/services/email-log.service.ts:84-87 | a retry or cancel goes on to its write exactly for a row that is known and not sent |
| OutboxTimes.TakesTheOldest | src/core/services/email-queue.ts:173-184 | an idle worker takes the oldest row of its queue |
| OutboxRows.FailsExactly | src/core/services/email-queue.ts:135-170 | over schedules with clean ticks, failed writes included, a row that is not sent, retried or cancelled has one attempt more for each failure written, and is failed exactly when none is left |
| OutboxRows.PendingStartsFailing | src/core/services/email-queue.ts:135-170 | every pending row with attempts left that no worker will run is a start for that |
| OutboxRows.EnqueuedFailsExactly | src/core/services/email-queue.ts:57-170 | without failed writes, a row queued at any time and never sent, retried or cancelled is failed exactly when as many failures are written as attempts are allowed, and pending before |
| OutboxRows.FailsAfterAllAttempts | src/core/services/email-queue.ts:135-170 | without failed writes such a row is failed after exactly the attempts it had left, and pending before |
| OutboxFailures.FailedWriteBreaksHolding | src/core/services/email-queue.ts:202-215 | after a failed write the flag clears while a worker runs, and the next tick lets a row be held twice |
| OutboxFailures.HeldOnceExactly | src/core/services/email-queue.ts:173-215 | over all schedules, failed writes included, a row has one holder at most exactly under a configuration of one worker or of one row per batch |
| OutboxFailures.CleanExactly | src/core/services/email-queue.ts:186-215 | exactly then no tick, over all schedules, polls a row that is held or queued for a worker that is left |
| OutboxFailures.SentRowComesBack | src/core/services/email-queue.ts:135-170 | with two holders one sends the row and the other makes it pending again |
| OutboxFailures.LateWriteUnsends | src/modules/email/services/email-log.service.ts:84-112 | a call that checked a row while a worker held it writes after the worker sent it: a cancel leaves it cancelled, a retry pending and polled again |
| EmailQueue.EmailQueue.RunTick | src/core/services/email-queue.ts:186-215 | a tick polls the oldest due rows up to a batch and starts its workers, or is dropped while a drain runs |
| EmailQueue.EmailQueue.TakeNext | src/core/services/email-queue.ts:173-184 | a worker shifts the shared queue or leaves |
| EmailQueue.EmailQueue.FinishRow | src/core/services/email-queue.ts:135-170 | a run ends sent, failed at the last attempt, or pending again after the backoff |
| EmailQueue.EmailQueue.LoseRow | src/core/services/email-queue.ts:150-169 | a result that cannot be written leaves the row as it is, ends the worker, and the first time clears the drain flag |
| EmailQueue.EmailQueue.Finish | src/core/services/email-queue.ts:202-215 | a finished drain clears the flag |
| EmailQueue.EmailQueue.CheckRow | src/modules/email/services/email-log.service.ts:84-87 | a retry or cancel is refused for a sent or unknown row and otherwise goes on to its write |
| EmailQueue.EmailQueue.WriteRow | src/modules/email/services/email-log.service.ts:89-112 | the write restarts the attempts of the row or cancels it, whatever has become of it since the check |

## Left out

- Database isolation, and the retries on serialization failures and on unique-key races: outside the outbox and the
  zones a call is one atomic step, also where the service reads before its transaction.
- Calls that commit at the same millisecond: call times strictly increase.
- Rounding of quantities and costs: `Decimal` columns are modelled as integers.
- Existence of a counted product, which the database's foreign key checks at capture.
- How a caller's roles and exceptions give the scope and the permissions that the room calls receive.
- "At most one open task per room" is not claimed: a rejected inspection opens its rework task without the check
  that opening a task makes.
- Names, numbers and other texts of zones, rooms and room types, warehouse and catalog maintenance, initial load,
  folios, notes, blind counts, audit log, listings and boards: plumbing.
- AccessLog.AccessService.Create: what is written in a scanned code enters as the employee or error that reading it
  gives, and the race of two requests with one client key is not modelled, because a call is one step.
- The report's universe, filters, sorting and summary.
- The local date of an instant in the access report is an arbitrary function of the instant.
- What sending an e-mail does, attachments, and the enqueue switch; a poll that fails; an administrator's write that
  fails.
- The zone calls' checks are one step, although they read the zone, its parent and the counts one after the other.
- Most outbox laws take the configured numbers of attempts and of workers to be at least one.
