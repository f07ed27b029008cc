/** When a row is polled: which rows a tick takes, and how long a failed row waits for its next run. */
module OutboxTimes {
  import opened Common
  import opened Outbox
  import opened OutboxLaws
  import opened OutboxRows

  // ----- what a poll takes -----

  /** The row is pending and its next attempt, if it has one, is not in the future. */
  predicate IsDue(row: Email, now: int) {
    row.status == Pending && (row.nextAttemptAt.Some? ==> row.nextAttemptAt.value <= now)
  }

  /** How many of the rows `from` to `id` are due, `id` not among them. */
  function OlderDue(rows: seq<Email>, from: nat, id: Id, now: int): nat
    requires from <= id <= |rows|
    decreases id - from
  {
    if from == id then 0 else (if IsDue(rows[from], now) then 1 else 0) + OlderDue(rows, from + 1, id, now)
  }

  lemma {:induction false} DueJobsHave(rows: seq<Email>, from: nat, id: Id, now: int)
    requires from <= id < |rows|
    ensures var jobs, n := DueJobs(rows, from, now), OlderDue(rows, from, id, now);
      && n <= |jobs|
      && (IsDue(rows[id], now) ==> n < |jobs| && jobs[n] == Job(id, rows[id].attempts))
      && (!IsDue(rows[id], now) ==> forall k :: 0 <= k < |jobs| ==> jobs[k].id != id)
    decreases id - from
  {
    var jobs := DueJobs(rows, from, now);
    DueJobsFit(rows, from, now);
    if from < id {
      DueJobsHave(rows, from + 1, id, now);
      if IsDue(rows[from], now) {
        assert jobs[1..] == DueJobs(rows, from + 1, now);
        assert forall k :: 0 < k < |jobs| ==> jobs[k] == jobs[1..][k - 1];
      }
    } else if from + 1 <= |rows| {
      DueJobsFit(rows, from + 1, now);
    }
  }

  ghost predicate Polled(cfg: Config, rows: seq<Email>, id: Id, now: int) {
    exists k :: 0 <= k < |Poll(cfg, rows, now)| && Poll(cfg, rows, now)[k].id == id
  }

  /** A poll takes a row exactly when it is due and fewer older rows are due than fit in a batch. */
  lemma PolledExactly(cfg: Config, rows: seq<Email>, id: Id, now: int)
    requires id < |rows|
    ensures Polled(cfg, rows, id, now) <==> IsDue(rows[id], now) && OlderDue(rows, 0, id, now) < cfg.batchSize
    ensures forall k :: 0 <= k < |Poll(cfg, rows, now)| && Poll(cfg, rows, now)[k].id == id ==>
              Poll(cfg, rows, now)[k].attempts == rows[id].attempts
    ensures |Poll(cfg, rows, now)| <= cfg.batchSize && Ascending(Poll(cfg, rows, now))
  {
    var due, n := DueJobs(rows, 0, now), OlderDue(rows, 0, id, now);
    var jobs := Poll(cfg, rows, now);
    DueJobsFit(rows, 0, now);
    DueJobsHave(rows, 0, id, now);
    if IsDue(rows[id], now) && n < cfg.batchSize {
      assert jobs[n].id == id;
    }
    if Polled(cfg, rows, id, now) {
      var k :| 0 <= k < |jobs| && jobs[k].id == id;
      assert due[k].id == id;
      assert IsDue(rows[id], now);
      assert due[n].id == id;
    }
  }

  // ----- how long a failed row waits -----

  const QUARTER_HOUR := 15 * 60 * 1000

  function Min(a: int, b: int): int {
    if a < b then a else b
  }

  /** Row `id` waits for `due`, and no worker will run it before it is polled. */
  predicate Waiting(o: Outbox, id: Id, attempts: nat, due: int) {
    id < |o.rows| && o.rows[id] == Email(Pending, attempts, Some(due)) && !WillRun(o, id)
  }

  lemma NotPolled(cfg: Config, rows: seq<Email>, id: Id, now: int)
    requires id < |rows| && !IsDue(rows[id], now)
    ensures !WillRunIn(NewDrain(cfg, Poll(cfg, rows, now)), id)
  {
    var jobs := Poll(cfg, rows, now);
    PolledExactly(cfg, rows, id, now);
    if jobs != [] {
      NewDrainProgress(cfg, jobs, id);
    }
    if QueuedFor(jobs, id) > 0 {
      var k := QueuedSomewhere(jobs, id);
      assert Polled(cfg, rows, id, now);
    }
  }

  /** No tick before `due`, and no write of an administrator on the row. */
  predicate Leaves(o: Outbox, s: Step, id: Id, due: int) {
    !Lands(o, s, id) && (s.Tick? ==> s.now < due)
  }

  ghost predicate AlwaysLeaves(cfg: Config, o: Outbox, steps: seq<Step>, id: Id, due: int)
    decreases |steps|
  {
    steps == [] || (Leaves(o, steps[0], id, due) && AlwaysLeaves(cfg, Exec(cfg, o, steps[0]), steps[1..], id, due))
  }

  lemma WaitingStays(cfg: Config, o: Outbox, s: Step, id: Id, attempts: nat, due: int)
    requires Waiting(o, id, attempts, due) && Leaves(o, s, id, due)
    ensures Waiting(Exec(cfg, o, s), id, attempts, due)
  {
    var after := Exec(cfg, o, s);
    if Enabled(o, s) {
      if s.Take? || s.Succeed? || s.Fail? || s.Break? {
        NoPlaceWhereStaffed(o, s.d, s.w, id);
        WorkerPlaces(o.drains[s.d], s.w, id);
      }
      forall d | 0 <= d < |after.drains| ensures !WillRunIn(after.drains[d], id) {
        if s.Tick? && d == |o.drains| {
          NotPolled(cfg, o.rows, id, s.now);
        } else {
          assert !WillRunIn(o.drains[if s.EndDrain? && d >= s.d then d + 1 else d], id);
        }
      }
    }
  }

  lemma {:induction false} WaitingStaysLong(cfg: Config, o: Outbox, steps: seq<Step>, id: Id, attempts: nat, due: int)
    requires Waiting(o, id, attempts, due) && AlwaysLeaves(cfg, o, steps, id, due)
    ensures Waiting(Run(cfg, o, steps), id, attempts, due)
    decreases |steps|
  {
    if steps != [] {
      WaitingStays(cfg, o, steps[0], id, attempts, due);
      WaitingStaysLong(cfg, Exec(cfg, o, steps[0]), steps[1..], id, attempts, due);
    }
  }

  /** After a failure with attempts left, in a state without a second holder, the row waits for its backoff. */
  lemma FailureWaits(cfg: Config, o: Outbox, d: nat, w: nat, now: int, id: Id)
    requires Sound(cfg, o) && FailsRow(o, Fail(d, w, now), id)
    requires o.drains[d].workers[w].job.attempts + 1 < cfg.maxAttempts
    ensures var n := o.drains[d].workers[w].job.attempts;
      Waiting(Exec(cfg, o, Fail(d, w, now)), id, n + 1, now + Min(cfg.retryBaseMs * Pow2(n), QUARTER_HOUR))
  {
    var after := Exec(cfg, o, Fail(d, w, now));
    HolderHasPlace(o, d, w);
    assert Places(o.drains, id) <= 1;
    forall e | 0 <= e < |after.drains| ensures !WillRunIn(after.drains[e], id) {
      if e == d {
        PlacesAt(o.drains, d, id);
        WorkerProgress(o.drains[d], w, id);
      } else if InProgress(o.drains[e], id) > 0 {
        TwoDrains(o.drains, if d < e then d else e, if d < e then e else d, id);
        assert false;
      }
    }
  }

  /**
   * After a failed run with attempts left, whatever else happens but a write of an administrator on the row, no
   * tick before the backoff is over takes it. A tick finds it due exactly from then on: it takes it unless the
   * batch is full of older rows.
   */
  lemma BackoffIsKept(cfg: Config, o: Outbox, d: nat, w: nat, now: int, id: Id, steps: seq<Step>, t: int)
    requires Sound(cfg, o) && FailsRow(o, Fail(d, w, now), id)
    requires var n := o.drains[d].workers[w].job.attempts;
      && n + 1 < cfg.maxAttempts
      && AlwaysLeaves(cfg, Exec(cfg, o, Fail(d, w, now)), steps, id, now + Min(cfg.retryBaseMs * Pow2(n), QUARTER_HOUR))
    ensures var n := o.drains[d].workers[w].job.attempts;
      var due := now + Min(cfg.retryBaseMs * Pow2(n), QUARTER_HOUR);
      var later := Run(cfg, Exec(cfg, o, Fail(d, w, now)), steps);
      && Waiting(later, id, n + 1, due)
      && (Polled(cfg, later.rows, id, t) <==> t >= due && OlderDue(later.rows, 0, id, t) < cfg.batchSize)
  {
    var n := o.drains[d].workers[w].job.attempts;
    var due := now + Min(cfg.retryBaseMs * Pow2(n), QUARTER_HOUR);
    var failed := Exec(cfg, o, Fail(d, w, now));
    FailureWaits(cfg, o, d, w, now, id);
    WaitingStaysLong(cfg, failed, steps, id, n + 1, due);
    PolledExactly(cfg, Run(cfg, failed, steps).rows, id, t);
  }

  /** A tick that is not dropped runs what it polls: its rows are in progress at once, if there are workers. */
  lemma TickRunsPolled(cfg: Config, o: Outbox, id: Id, now: int)
    requires !o.draining && id < |o.rows| && cfg.concurrency > 0 && !WillRun(o, id)
    ensures WillRun(Exec(cfg, o, Tick(now)), id) <==> Polled(cfg, o.rows, id, now)
  {
    var jobs, after := Poll(cfg, o.rows, now), Exec(cfg, o, Tick(now));
    if jobs != [] {
      NewDrainProgress(cfg, jobs, id);
      assert after.drains == o.drains + [NewDrain(cfg, jobs)];
      if Polled(cfg, o.rows, id, now) {
        var k :| 0 <= k < |jobs| && jobs[k].id == id;
        QueuedForOne(jobs, k);
        assert WillRunIn(after.drains[|o.drains|], id);
      }
      if QueuedFor(jobs, id) > 0 {
        var k := QueuedSomewhere(jobs, id);
      }
      if WillRun(after, id) {
        var d :| 0 <= d < |after.drains| && WillRunIn(after.drains[d], id);
        assert d == |o.drains|;
      }
    }
  }

  // ----- who writes a row -----

  /** What the step makes of row `id`, if it writes it. */
  predicate WritesRow(cfg: Config, o: Outbox, s: Step, id: Id, after: Email)
    requires id < |o.rows|
  {
    match s
    case Succeed(d, w) => Holds(o, d, w) && o.drains[d].workers[w].job.id == id && after == o.rows[id].(status := Sent)
    case Fail(d, w, now) =>
      && Holds(o, d, w) && o.drains[d].workers[w].job.id == id
      && after.attempts == o.drains[d].workers[w].job.attempts + 1
      && (if after.attempts < cfg.maxAttempts then
            after.status == Pending
            && after.nextAttemptAt == Some(now + Min(cfg.retryBaseMs * Pow2(after.attempts - 1), QUARTER_HOUR))
          else after.status == Failed && after.nextAttemptAt == None)
    case AdminWrite(a, now) =>
      && a < |o.admins| && o.admins[a].id == id
      && (if o.admins[a].action == RetryRow then after == Email(Pending, 0, Some(now))
          else after == Email(Cancelled, o.rows[id].attempts, None))
    case _ => false
  }

  /** A step writes at most the row it is about: the run of its holder, or an administrator's write. */
  lemma RowsWrittenExactly(cfg: Config, o: Outbox, s: Step, id: Id)
    requires id < |o.rows|
    ensures var after := Exec(cfg, o, s).rows;
      id < |after| && (after[id] == o.rows[id] || WritesRow(cfg, o, s, id, after[id]))
    ensures var after := Exec(cfg, o, s).rows;
      (exists e :: WritesRow(cfg, o, s, id, e)) ==> WritesRow(cfg, o, s, id, after[id])
  {
  }

  /** A retry or cancel goes on to its write exactly for a row that is known and not sent. */
  lemma ChecksExactly(cfg: Config, o: Outbox, id: Id, action: AdminAction)
    ensures var after := Exec(cfg, o, AdminCheck(id, action));
      after == if id < |o.rows| && o.rows[id].status != Sent then o.(admins := o.admins + [AdminCall(id, action)])
               else o
  {
  }

  /**
   * The drain flag is raised by a tick that finds rows, and cleared by the first row a drain loses or, when it has
   * lost none, by its end. Nothing else moves it.
   */
  lemma FlagExactly(cfg: Config, o: Outbox, s: Step)
    requires Enabled(o, s)
    ensures var after := Exec(cfg, o, s).draining;
      && (s.Tick? ==> (after <==> o.draining || Poll(cfg, o.rows, s.now) != []))
      && (s.Break? || s.EndDrain? ==> (after <==> o.draining && o.drains[s.d].lost != []))
      && (!s.Tick? && !s.Break? && !s.EndDrain? ==> after == o.draining)
  {
  }

  /** An idle worker takes the oldest row of its queue. */
  lemma TakesTheOldest(cfg: Config, o: Outbox, d: nat, w: nat)
    requires HasWorker(o, d, w) && o.drains[d].workers[w].Idle? && o.drains[d].queue != []
    ensures var after := Exec(cfg, o, Take(d, w)).drains[d]; var queue := o.drains[d].queue;
      && |after.workers| == |o.drains[d].workers| && after.workers[w] == Holding(queue[0])
      && [queue[0]] + after.queue == queue
  {
  }
}
