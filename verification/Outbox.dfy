/**
 * The e-mail outbox: a timer drains pending rows in batches through a small pool of workers, while
 * administrators retry and cancel rows. Each step is what runs between two awaits, so a call of an
 * administrator checks its row in one step and writes it in a later one.
 */
module Outbox {
  import opened Common

  datatype EmailStatus = Pending | Sent | Failed | Cancelled

  datatype Email = Email(status: EmailStatus, attempts: nat, nextAttemptAt: Option<int>)

  datatype Config = Config(maxAttempts: nat, batchSize: nat, concurrency: nat, retryBaseMs: nat)

  /** A row as the poll read it; the worker goes by these attempts, whatever the row says later. */
  datatype Job = Job(id: Id, attempts: nat)

  datatype Worker = Idle | Holding(job: Job) | Gone

  /** One poll and its workers: the rows they finished, and those whose result they could not write. */
  datatype Drain = Drain(batch: seq<Id>, queue: seq<Job>, workers: seq<Worker>, done: seq<Id>, lost: seq<Id>)

  datatype AdminAction = RetryRow | CancelRow

  /** An administrator's call that has seen its row unsent and is still to write it. */
  datatype AdminCall = AdminCall(id: Id, action: AdminAction)

  datatype Outbox = Outbox(rows: seq<Email>, draining: bool, drains: seq<Drain>, admins: seq<AdminCall>)

  const MAX_BACKOFF_MS := 15 * 60 * 1000

  function Pow2(n: nat): nat {
    if n == 0 then 1 else 2 * Pow2(n - 1)
  }

  function BackoffMs(cfg: Config, attempts: nat): int
    requires attempts > 0
  {
    var wait := cfg.retryBaseMs * Pow2(attempts - 1);
    if wait < MAX_BACKOFF_MS then wait else MAX_BACKOFF_MS
  }

  predicate Due(e: Email, now: int) {
    e.status == Pending && (e.nextAttemptAt.None? || e.nextAttemptAt.value <= now)
  }

  /** The due rows from index `from` on, oldest first. */
  function DueJobs(rows: seq<Email>, from: nat, now: int): seq<Job>
    requires from <= |rows|
    decreases |rows| - from
  {
    if from == |rows| then []
    else if Due(rows[from], now) then [Job(from, rows[from].attempts)] + DueJobs(rows, from + 1, now)
    else DueJobs(rows, from + 1, now)
  }

  function Poll(cfg: Config, rows: seq<Email>, now: int): seq<Job> {
    var due := DueJobs(rows, 0, now);
    if |due| <= cfg.batchSize then due else due[..cfg.batchSize]
  }

  function Ids(jobs: seq<Job>): seq<Id> {
    if jobs == [] then [] else [jobs[0].id] + Ids(jobs[1..])
  }

  function IdleWorkers(n: nat): seq<Worker> {
    if n == 0 then [] else [Idle] + IdleWorkers(n - 1)
  }

  predicate AllGone(workers: seq<Worker>) {
    workers == [] || (workers[0] == Gone && AllGone(workers[1..]))
  }

  /** What a failed run writes: one more attempt, and either the end or a later try. */
  function AfterFailure(cfg: Config, job: Job, now: int): Email {
    var attempts := job.attempts + 1;
    if attempts >= cfg.maxAttempts then Email(Failed, attempts, None)
    else Email(Pending, attempts, Some(now + BackoffMs(cfg, attempts)))
  }

  datatype Step =
    | Enqueue
    | Tick(now: int)
    | Take(d: nat, w: nat)
    | Succeed(d: nat, w: nat)
    | Fail(d: nat, w: nat, now: int)
    | Break(d: nat, w: nat)
    | EndDrain(d: nat)
    | AdminCheck(id: Id, action: AdminAction)
    | AdminWrite(a: nat, now: int)

  predicate HasWorker(o: Outbox, d: nat, w: nat) {
    d < |o.drains| && w < |o.drains[d].workers|
  }

  predicate Holds(o: Outbox, d: nat, w: nat) {
    HasWorker(o, d, w) && o.drains[d].workers[w].Holding? && o.drains[d].workers[w].job.id < |o.rows|
  }

  /** The steps that can happen; the check of a sent or unknown row refuses the call. */
  predicate Enabled(o: Outbox, s: Step) {
    match s
    case Enqueue => true
    case Tick(_) => true
    case Take(d, w) => HasWorker(o, d, w) && o.drains[d].workers[w].Idle?
    case Succeed(d, w) => Holds(o, d, w)
    case Fail(d, w, _) => Holds(o, d, w)
    case Break(d, w) => Holds(o, d, w)
    case EndDrain(d) => d < |o.drains| && AllGone(o.drains[d].workers)
    case AdminCheck(id, _) => id < |o.rows| && o.rows[id].status != Sent
    case AdminWrite(a, _) => a < |o.admins| && o.admins[a].id < |o.rows|
  }

  /** A tick while a drain is running is dropped; otherwise it polls, and drains what it finds. */
  function TickStep(cfg: Config, o: Outbox, now: int): Outbox {
    var jobs := Poll(cfg, o.rows, now);
    if o.draining || jobs == [] then o
    else o.(draining := true, drains := o.drains + [NewDrain(cfg, jobs)])
  }

  function NewDrain(cfg: Config, jobs: seq<Job>): Drain {
    var n := if cfg.concurrency <= |jobs| then cfg.concurrency else |jobs|;
    Drain(Ids(jobs), jobs, IdleWorkers(n), [], [])
  }

  /** An idle worker takes the head of its queue, or leaves when there is none. */
  function TakeIn(drain: Drain, w: nat): Drain
    requires w < |drain.workers|
  {
    if drain.queue == [] then drain.(workers := drain.workers[w := Gone])
    else drain.(workers := drain.workers[w := Holding(drain.queue[0])], queue := drain.queue[1..])
  }

  /** A worker has written the result of its row and is idle again. */
  function FinishIn(drain: Drain, w: nat): Drain
    requires w < |drain.workers| && drain.workers[w].Holding?
  {
    drain.(workers := drain.workers[w := Idle], done := drain.done + [drain.workers[w].job.id])
  }

  /** A worker could not write its result, and is gone. */
  function BreakIn(drain: Drain, w: nat): Drain
    requires w < |drain.workers| && drain.workers[w].Holding?
  {
    drain.(workers := drain.workers[w := Gone], lost := drain.lost + [drain.workers[w].job.id])
  }

  function TakeStep(o: Outbox, d: nat, w: nat): Outbox
    requires HasWorker(o, d, w)
  {
    o.(drains := o.drains[d := TakeIn(o.drains[d], w)])
  }

  function FinishStep(o: Outbox, d: nat, w: nat, row: Email): Outbox
    requires Holds(o, d, w)
  {
    o.(rows := o.rows[o.drains[d].workers[w].job.id := row], drains := o.drains[d := FinishIn(o.drains[d], w)])
  }

  /** The first promise of a drain to reject ends the tick at once, and clears its flag. */
  function BreakStep(o: Outbox, d: nat, w: nat): Outbox
    requires Holds(o, d, w)
  {
    o.(draining := if o.drains[d].lost == [] then false else o.draining,
       drains := o.drains[d := BreakIn(o.drains[d], w)])
  }

  function EndStep(o: Outbox, d: nat): Outbox
    requires d < |o.drains|
  {
    o.(draining := if o.drains[d].lost == [] then false else o.draining,
       drains := o.drains[..d] + o.drains[d + 1..])
  }

  /** What an administrator's call writes, whatever has happened to the row since its check. */
  function AdminRow(call: AdminCall, row: Email, now: int): Email {
    match call.action
    case RetryRow => Email(Pending, 0, Some(now))
    case CancelRow => row.(status := Cancelled, nextAttemptAt := None)
  }

  function WriteStep(o: Outbox, a: nat, now: int): Outbox
    requires a < |o.admins| && o.admins[a].id < |o.rows|
  {
    var call := o.admins[a];
    o.(rows := o.rows[call.id := AdminRow(call, o.rows[call.id], now)], admins := o.admins[..a] + o.admins[a + 1..])
  }

  function Exec(cfg: Config, o: Outbox, s: Step): Outbox {
    if !Enabled(o, s) then o
    else
      match s
      case Enqueue => o.(rows := o.rows + [Email(Pending, 0, None)])
      case Tick(now) => TickStep(cfg, o, now)
      case Take(d, w) => TakeStep(o, d, w)
      case Succeed(d, w) => FinishStep(o, d, w, o.rows[o.drains[d].workers[w].job.id].(status := Sent))
      case Fail(d, w, now) => FinishStep(o, d, w, AfterFailure(cfg, o.drains[d].workers[w].job, now))
      case Break(d, w) => BreakStep(o, d, w)
      case EndDrain(d) => EndStep(o, d)
      case AdminCheck(id, action) => o.(admins := o.admins + [AdminCall(id, action)])
      case AdminWrite(a, now) => WriteStep(o, a, now)
  }

  function Run(cfg: Config, o: Outbox, steps: seq<Step>): Outbox
    decreases |steps|
  {
    if steps == [] then o else Run(cfg, Exec(cfg, o, steps[0]), steps[1..])
  }

  const START := Outbox([], false, [], [])
}
