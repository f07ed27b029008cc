/**
 * What can become of one row: when being sent or cancelled is final, when a failing row gives up, and
 * how long it waits. Everything here allows for failed writes.
 */
module OutboxRows {
  import opened Common
  import opened Outbox
  import opened OutboxLaws

  lemma RunAt(cfg: Config, o: Outbox, s: Step, rest: seq<Step>)
    ensures Run(cfg, o, [s] + rest) == Run(cfg, Exec(cfg, o, s), rest)
  {
    assert ([s] + rest)[1..] == rest;
  }

  /** The schedule leaves row `id` with `status`. */
  ghost predicate EndsAs(cfg: Config, o: Outbox, steps: seq<Step>, id: Id, status: EmailStatus) {
    var rows := Run(cfg, o, steps).rows;
    id < |rows| && rows[id].status == status
  }

  /** A call of an administrator has checked row `id` and is still to write it. */
  predicate CallOpen(o: Outbox, id: Id) {
    exists a :: 0 <= a < |o.admins| && o.admins[a].id == id
  }

  /** The step is such a write. */
  predicate Lands(o: Outbox, s: Step, id: Id) {
    s.AdminWrite? && Enabled(o, s) && o.admins[s.a].id == id
  }

  predicate RetryLands(o: Outbox, s: Step, id: Id) {
    Lands(o, s, id) && o.admins[s.a].action == RetryRow
  }

  ghost predicate NoneLands(cfg: Config, o: Outbox, steps: seq<Step>, id: Id)
    decreases |steps|
  {
    steps == [] || (!Lands(o, steps[0], id) && NoneLands(cfg, Exec(cfg, o, steps[0]), steps[1..], id))
  }

  ghost predicate NoRetryLands(cfg: Config, o: Outbox, steps: seq<Step>, id: Id)
    decreases |steps|
  {
    steps == [] || (!RetryLands(o, steps[0], id) && NoRetryLands(cfg, Exec(cfg, o, steps[0]), steps[1..], id))
  }

  // ----- rows a worker may still write -----

  /** A worker of the drain holds row `id`, or may still take it off the queue. */
  predicate WillRunIn(drain: Drain, id: Id) {
    InProgress(drain, id) > 0
  }

  predicate WillRun(o: Outbox, id: Id) {
    exists d :: 0 <= d < |o.drains| && WillRunIn(o.drains[d], id)
  }

  /** Workers only deal with rows of the table. */
  ghost predicate Grounded(o: Outbox) {
    forall d :: 0 <= d < |o.drains| ==> GroundedIn(o.drains[d], |o.rows|)
  }

  ghost predicate GroundedIn(drain: Drain, n: nat) {
    && (forall w :: 0 <= w < |drain.workers| && drain.workers[w].Holding? ==> drain.workers[w].job.id < n)
    && (!AllGone(drain.workers) ==> forall k :: 0 <= k < |drain.queue| ==> drain.queue[k].id < n)
  }

  lemma {:induction false} SomeoneStays(workers: seq<Worker>) returns (w: nat)
    requires !AllGone(workers)
    ensures w < |workers| && workers[w] != Gone
  {
    if workers[0] != Gone {
      w := 0;
    } else {
      var v := SomeoneStays(workers[1..]);
      w := v + 1;
    }
  }

  lemma {:induction false} HeldSomewhere(workers: seq<Worker>, id: Id) returns (w: nat)
    requires HeldBy(workers, id) > 0
    ensures w < |workers| && workers[w].Holding? && workers[w].job.id == id
  {
    if Has(workers[0], id) > 0 {
      w := 0;
    } else {
      var v := HeldSomewhere(workers[1..], id);
      w := v + 1;
    }
  }

  /** A worker that still takes steps shows that its drain has no place for a row it will not run. */
  lemma NoPlaceWhereStaffed(o: Outbox, d: nat, w: nat, id: Id)
    requires HasWorker(o, d, w) && o.drains[d].workers[w] != Gone && !WillRun(o, id)
    ensures PlacesIn(o.drains[d], id) == 0
    ensures o.drains[d].workers[w].Holding? ==> o.drains[d].workers[w].job.id != id
  {
    StaffedBy(o.drains[d].workers, w);
    assert !WillRunIn(o.drains[d], id);
    if o.drains[d].workers[w].Holding? {
      HeldByOne(o.drains[d].workers, w);
    }
  }

  lemma PolledArePending(cfg: Config, rows: seq<Email>, now: int, id: Id)
    requires id < |rows| && rows[id].status != Pending
    ensures !WillRunIn(NewDrain(cfg, Poll(cfg, rows, now)), id)
  {
    var jobs := Poll(cfg, rows, now);
    DueJobsFit(rows, 0, now);
    if jobs != [] {
      NewDrainProgress(cfg, jobs, id);
    }
    if QueuedFor(jobs, id) > 0 {
      var k := QueuedSomewhere(jobs, id);
    }
  }

  /** A row that is not pending and that no worker will run is written by administrators only. */
  lemma LeftAlone(cfg: Config, o: Outbox, s: Step, id: Id)
    requires id < |o.rows| && o.rows[id].status != Pending && !WillRun(o, id)
    ensures var after := Exec(cfg, o, s);
      && id < |after.rows| && !WillRun(after, id)
      && (!Lands(o, s, id) ==> after.rows[id] == o.rows[id])
  {
    var after := Exec(cfg, o, s);
    if Enabled(o, s) {
      if s.Take? || s.Succeed? || s.Fail? || s.Break? {
        NoPlaceWhereStaffed(o, s.d, s.w, id);
        WorkerPlaces(o.drains[s.d], s.w, id);
      }
      forall d | 0 <= d < |after.drains| ensures !WillRunIn(after.drains[d], id) {
        if s.Tick? && d == |o.drains| {
          PolledArePending(cfg, o.rows, s.now, id);
        } else {
          assert !WillRunIn(o.drains[if s.EndDrain? && d >= s.d then d + 1 else d], id);
        }
      }
    }
  }

  lemma GroundedStep(cfg: Config, o: Outbox, s: Step)
    requires Grounded(o) && (s.Take? || s.Fail?)
    ensures Grounded(Exec(cfg, o, s)) && |Exec(cfg, o, s).rows| == |o.rows|
  {
    if Enabled(o, s) {
      StaffedBy(o.drains[s.d].workers, s.w);
      assert GroundedIn(o.drains[s.d], |o.rows|);
      assert GroundedIn(Exec(cfg, o, s).drains[s.d], |o.rows|);
    }
  }

  /** The worker goes on, failing every row, until it has failed row `id`. */
  lemma {:induction false} RunUntil(cfg: Config, o: Outbox, d: nat, w: nat, id: Id) returns (steps: seq<Step>)
    requires Grounded(o) && id < |o.rows| && HasWorker(o, d, w) && o.drains[d].workers[w] != Gone
    requires Has(o.drains[d].workers[w], id) > 0 || QueuedFor(o.drains[d].queue, id) > 0
    ensures NoRetryLands(cfg, o, steps, id) && (EndsAs(cfg, o, steps, id, Failed) || EndsAs(cfg, o, steps, id, Pending))
    decreases |o.drains[d].queue|, if o.drains[d].workers[w].Holding? then 1 else 0
  {
    var drain := o.drains[d];
    StaffedBy(drain.workers, w);
    assert GroundedIn(drain, |o.rows|);
    var s := if drain.workers[w].Holding? then Fail(d, w, 0) else Take(d, w);
    var rest: seq<Step> := [];
    GroundedStep(cfg, o, s);
    if Has(drain.workers[w], id) == 0 {
      rest := RunUntil(cfg, Exec(cfg, o, s), d, w, id);
    } else {
      assert Exec(cfg, o, s).rows[id] == AfterFailure(cfg, drain.workers[w].job, 0);
    }
    steps := [s] + rest;
    RunAt(cfg, o, s, rest);
    assert steps[1..] == rest;
  }

  /** Whatever a worker may still run, some schedule runs and fails. */
  lemma RunsAndFails(cfg: Config, o: Outbox, id: Id) returns (steps: seq<Step>)
    requires Grounded(o) && id < |o.rows| && WillRun(o, id)
    ensures NoRetryLands(cfg, o, steps, id) && (EndsAs(cfg, o, steps, id, Failed) || EndsAs(cfg, o, steps, id, Pending))
  {
    var d :| 0 <= d < |o.drains| && WillRunIn(o.drains[d], id);
    var w: nat;
    if HeldBy(o.drains[d].workers, id) > 0 {
      w := HeldSomewhere(o.drains[d].workers, id);
    } else {
      w := SomeoneStays(o.drains[d].workers);
    }
    steps := RunUntil(cfg, o, d, w, id);
  }

  // ----- sent rows -----

  ghost predicate AlwaysSent(cfg: Config, o: Outbox, steps: seq<Step>, id: Id)
    decreases |steps|
  {
    && id < |o.rows| && o.rows[id].status == Sent
    && (steps == [] || AlwaysSent(cfg, Exec(cfg, o, steps[0]), steps[1..], id))
  }

  /**
   * A sent row that no worker will run stays sent over a schedule exactly when no administrator's write
   * lands on it. Such a write is late: its call checked the row before it was sent.
   */
  lemma {:induction false} SentExactlyUnlessLanded(cfg: Config, o: Outbox, steps: seq<Step>, id: Id)
    requires id < |o.rows| && o.rows[id].status == Sent && !WillRun(o, id)
    ensures AlwaysSent(cfg, o, steps, id) <==> NoneLands(cfg, o, steps, id)
    decreases |steps|
  {
    if steps != [] {
      LeftAlone(cfg, o, steps[0], id);
      if !Lands(o, steps[0], id) {
        SentExactlyUnlessLanded(cfg, Exec(cfg, o, steps[0]), steps[1..], id);
      }
    }
  }

  /** A sent row opens no calls: its checks are refused. */
  lemma {:induction false} SentWithoutCalls(cfg: Config, o: Outbox, steps: seq<Step>, id: Id)
    requires id < |o.rows| && o.rows[id].status == Sent && !WillRun(o, id) && !CallOpen(o, id)
    ensures EndsAs(cfg, o, steps, id, Sent)
    decreases |steps|
  {
    if steps != [] {
      LeftAlone(cfg, o, steps[0], id);
      SentWithoutCalls(cfg, Exec(cfg, o, steps[0]), steps[1..], id);
    }
  }

  /** A sent row stays sent whatever happens exactly when no call is open on it and no worker will run it. */
  lemma SentExactly(cfg: Config, o: Outbox, id: Id)
    requires Grounded(o) && id < |o.rows| && o.rows[id].status == Sent
    ensures (forall steps :: EndsAs(cfg, o, steps, id, Sent)) <==> !CallOpen(o, id) && !WillRun(o, id)
  {
    if !CallOpen(o, id) && !WillRun(o, id) {
      forall steps ensures EndsAs(cfg, o, steps, id, Sent) {
        SentWithoutCalls(cfg, o, steps, id);
      }
    } else if WillRun(o, id) {
      var steps := RunsAndFails(cfg, o, id);
      assert !EndsAs(cfg, o, steps, id, Sent);
    } else {
      var a :| 0 <= a < |o.admins| && o.admins[a].id == id;
      RunAt(cfg, o, AdminWrite(a, 0), []);
      assert !EndsAs(cfg, o, [AdminWrite(a, 0)] + [], id, Sent);
    }
  }

  lemma SoundIsGrounded(cfg: Config, o: Outbox)
    requires Sound(cfg, o)
    ensures Grounded(o)
  {
    forall d | 0 <= d < |o.drains| ensures GroundedIn(o.drains[d], |o.rows|) {
      assert Fits(cfg, o.rows, o.drains[d]);
      forall w | 0 <= w < |o.drains[d].workers| && o.drains[d].workers[w].Holding?
        ensures o.drains[d].workers[w].job.id < |o.rows|
      {
        assert JobFits(cfg, o.rows, o.drains[d].workers[w].job);
      }
      forall k | !AllGone(o.drains[d].workers) && 0 <= k < |o.drains[d].queue|
        ensures o.drains[d].queue[k].id < |o.rows|
      {
        assert JobFits(cfg, o.rows, o.drains[d].queue[k]);
      }
    }
  }

  /**
   * In every state a schedule without failed writes reaches, and in every sound one, being sent is final
   * exactly when no call is open on the row: one that checked it before it was sent.
   */
  lemma SentForEver(cfg: Config, o: Outbox, id: Id)
    requires Sound(cfg, o) && id < |o.rows| && o.rows[id].status == Sent
    ensures (forall steps :: EndsAs(cfg, o, steps, id, Sent)) <==> !CallOpen(o, id)
  {
    SoundIsGrounded(cfg, o);
    forall d | 0 <= d < |o.drains| ensures !WillRunIn(o.drains[d], id) {
      assert Fits(cfg, o.rows, o.drains[d]);
      if HeldBy(o.drains[d].workers, id) > 0 {
        var w := HeldSomewhere(o.drains[d].workers, id);
      }
      if QueuedFor(o.drains[d].queue, id) > 0 {
        var k := QueuedSomewhere(o.drains[d].queue, id);
      }
    }
    SentExactly(cfg, o, id);
  }

  // ----- cancelled rows -----

  lemma {:induction false} CancelledWithoutPlace(cfg: Config, o: Outbox, steps: seq<Step>, id: Id)
    requires id < |o.rows| && o.rows[id].status == Cancelled && !WillRun(o, id) && NoRetryLands(cfg, o, steps, id)
    ensures EndsAs(cfg, o, steps, id, Cancelled)
    decreases |steps|
  {
    if steps != [] {
      LeftAlone(cfg, o, steps[0], id);
      CancelledWithoutPlace(cfg, Exec(cfg, o, steps[0]), steps[1..], id);
    }
  }

  /**
   * Unless it is retried, a cancelled row stays cancelled whatever happens exactly when no worker holds it
   * and none may still take it off a queue: what a worker writes does not look at the row.
   */
  lemma CancelledExactly(cfg: Config, o: Outbox, id: Id)
    requires Grounded(o) && id < |o.rows| && o.rows[id].status == Cancelled
    ensures (forall steps :: NoRetryLands(cfg, o, steps, id) ==> EndsAs(cfg, o, steps, id, Cancelled))
       <==> !WillRun(o, id)
  {
    if WillRun(o, id) {
      var steps := RunsAndFails(cfg, o, id);
      assert NoRetryLands(cfg, o, steps, id) && !EndsAs(cfg, o, steps, id, Cancelled);
    } else {
      forall steps | NoRetryLands(cfg, o, steps, id) ensures EndsAs(cfg, o, steps, id, Cancelled) {
        CancelledWithoutPlace(cfg, o, steps, id);
      }
    }
  }

  /** In every state a schedule without failed writes reaches, that is when it has no place in any drain. */
  lemma CancelledForEver(cfg: Config, o: Outbox, id: Id)
    requires Inv(cfg, o) && id < |o.rows| && o.rows[id].status == Cancelled
    ensures (forall steps :: NoRetryLands(cfg, o, steps, id) ==> EndsAs(cfg, o, steps, id, Cancelled))
       <==> forall d :: 0 <= d < |o.drains| ==> PlacesIn(o.drains[d], id) == 0
  {
    SoundIsGrounded(cfg, o);
    CancelledExactly(cfg, o, id);
    if o.draining {
      var drain := o.drains[0];
      assert Settled(drain) && o.drains[1..] == [];
      if AllGone(drain.workers) {
        AllAreGone(drain.workers);
        GoneHoldNothing(drain.workers, id);
      }
      assert WillRunIn(drain, id) <==> PlacesIn(drain, id) > 0;
    }
  }

  // ----- a row that always fails -----

  /**
   * The wait starts at the base and doubles with each failure until it reaches a quarter of an hour, where it
   * stays.
   */
  lemma BackoffDoubles(cfg: Config, attempts: nat)
    requires attempts > 0
    ensures BackoffMs(cfg, 1) == if cfg.retryBaseMs < MAX_BACKOFF_MS then cfg.retryBaseMs else MAX_BACKOFF_MS
    ensures BackoffMs(cfg, attempts) <= BackoffMs(cfg, attempts + 1) <= MAX_BACKOFF_MS
    ensures BackoffMs(cfg, attempts + 1)
         == if 2 * BackoffMs(cfg, attempts) < MAX_BACKOFF_MS then 2 * BackoffMs(cfg, attempts) else MAX_BACKOFF_MS
  {
    assert Pow2(0) == 1;
    var power := Pow2(attempts - 1);
    assert Pow2(attempts) == 2 * power;
    assert cfg.retryBaseMs * (2 * power) == 2 * (cfg.retryBaseMs * power);
    assert cfg.retryBaseMs * power >= 0;
  }

  predicate FailsRow(o: Outbox, s: Step, id: Id) {
    s.Fail? && Holds(o, s.d, s.w) && o.drains[s.d].workers[s.w].job.id == id
  }

  /** The step does not send row `id`, and no administrator's write lands on it. */
  predicate SparesRow(o: Outbox, s: Step, id: Id) {
    && !(s.Succeed? && Holds(o, s.d, s.w) && o.drains[s.d].workers[s.w].job.id == id)
    && !Lands(o, s, id)
  }

  /** How often the schedule writes a failure of row `id`. */
  function Failures(cfg: Config, o: Outbox, steps: seq<Step>, id: Id): nat
    decreases |steps|
  {
    if steps == [] then 0
    else (if FailsRow(o, steps[0], id) then 1 else 0) + Failures(cfg, Exec(cfg, o, steps[0]), steps[1..], id)
  }

  ghost predicate AlwaysSpares(cfg: Config, o: Outbox, steps: seq<Step>, id: Id)
    decreases |steps|
  {
    steps == [] || (SparesRow(o, steps[0], id) && AlwaysSpares(cfg, Exec(cfg, o, steps[0]), steps[1..], id))
  }

  /** Whoever still has to run row `id` knows all its attempts. */
  ghost predicate Knows(drain: Drain, row: Email, id: Id) {
    && (forall w :: 0 <= w < |drain.workers| && drain.workers[w].Holding? && drain.workers[w].job.id == id
          ==> row.status == Pending && drain.workers[w].job.attempts == row.attempts)
    && (!AllGone(drain.workers) ==>
          forall k :: 0 <= k < |drain.queue| && drain.queue[k].id == id ==>
            row.status == Pending && drain.queue[k].attempts == row.attempts)
  }

  predicate PendingOrFailed(cfg: Config, row: Email) {
    || (row.status == Pending && row.attempts < cfg.maxAttempts)
    || (row.status == Failed && row.attempts == cfg.maxAttempts)
  }

  /** Row `id` is pending with attempts left, or has failed with all of them used. */
  ghost predicate Failing(cfg: Config, o: Outbox, id: Id) {
    && id < |o.rows| && PendingOrFailed(cfg, o.rows[id])
    && forall d :: 0 <= d < |o.drains| ==> Knows(o.drains[d], o.rows[id], id)
  }

  lemma NoPlaceKnows(drain: Drain, row: Email, id: Id)
    requires InProgress(drain, id) == 0
    ensures Knows(drain, row, id)
  {
    forall w | 0 <= w < |drain.workers| && drain.workers[w].Holding? ensures drain.workers[w].job.id != id {
      HeldByOne(drain.workers, w);
      StaffedBy(drain.workers, w);
    }
    forall k | !AllGone(drain.workers) && 0 <= k < |drain.queue| ensures drain.queue[k].id != id {
      QueuedForOne(drain.queue, k);
    }
  }

  /** A failure of row `id` is written by the only worker that has it. */
  lemma FailingFails(cfg: Config, o: Outbox, d: nat, w: nat, now: int, id: Id)
    requires Sound(cfg, o) && Failing(cfg, o, id) && FailsRow(o, Fail(d, w, now), id)
    ensures var after := Exec(cfg, o, Fail(d, w, now));
      Failing(cfg, after, id) && after.rows[id].attempts == o.rows[id].attempts + 1
  {
    var after := Exec(cfg, o, Fail(d, w, now));
    assert Knows(o.drains[d], o.rows[id], id);
    HolderHasPlace(o, d, w);
    assert Places(o.drains, id) <= 1;
    forall e | 0 <= e < |after.drains| ensures Knows(after.drains[e], after.rows[id], id) {
      if e == d {
        PlacesAt(o.drains, d, id);
        WorkerProgress(o.drains[d], w, id);
      } else if InProgress(o.drains[e], id) > 0 {
        TwoDrains(o.drains, if d < e then d else e, if d < e then e else d, id);
        assert false;
      }
      NoPlaceKnows(after.drains[e], after.rows[id], id);
    }
  }

  lemma TickKnows(cfg: Config, rows: seq<Email>, now: int, id: Id)
    requires id < |rows|
    ensures Knows(NewDrain(cfg, Poll(cfg, rows, now)), rows[id], id)
  {
    var jobs := Poll(cfg, rows, now);
    DueJobsFit(rows, 0, now);
    IdleHoldNothing(if cfg.concurrency <= |jobs| then cfg.concurrency else |jobs|, id);
  }

  /** Steps that leave row `id` as it is let nobody know less about it. */
  lemma FailingStays(cfg: Config, o: Outbox, s: Step, id: Id)
    requires Failing(cfg, o, id) && SparesRow(o, s, id) && !FailsRow(o, s, id)
    ensures Failing(cfg, Exec(cfg, o, s), id) && Exec(cfg, o, s).rows[id] == o.rows[id]
  {
    var after := Exec(cfg, o, s);
    if Enabled(o, s) {
      if s.Take? || s.Succeed? || s.Fail? || s.Break? {
        StaffedBy(o.drains[s.d].workers, s.w);
      }
      forall d | 0 <= d < |after.drains| ensures Knows(after.drains[d], o.rows[id], id) {
        if s.Tick? && d == |o.drains| {
          TickKnows(cfg, o.rows, s.now, id);
        } else {
          var e := if s.EndDrain? && d >= s.d then d + 1 else d;
          assert Knows(o.drains[e], o.rows[id], id);
        }
      }
    }
  }

  /** Any pending row that is not in progress starts so, and so does a row just enqueued. */
  lemma PendingStartsFailing(cfg: Config, o: Outbox, id: Id)
    requires PendingHaveAttempts(cfg, o.rows)
    requires id < |o.rows| && o.rows[id].status == Pending && !WillRun(o, id)
    ensures Failing(cfg, o, id)
  {
    forall d | 0 <= d < |o.drains| ensures Knows(o.drains[d], o.rows[id], id) {
      assert !WillRunIn(o.drains[d], id);
      NoPlaceKnows(o.drains[d], o.rows[id], id);
    }
  }

  lemma EnqueuedStartsFailing(cfg: Config, o: Outbox)
    requires cfg.maxAttempts >= 1 && Sound(cfg, o)
    ensures Failing(cfg, Exec(cfg, o, Enqueue), |o.rows|)
  {
    SoundIsGrounded(cfg, o);
    forall d | 0 <= d < |o.drains| ensures Knows(o.drains[d], Email(Pending, 0, None), |o.rows|) {
      assert GroundedIn(o.drains[d], |o.rows|);
    }
  }

  /**
   * From an empty outbox: an e-mail enqueued after any schedule without failed writes, and from then on never
   * sent, retried or cancelled, is failed after exactly as many failed runs as the configuration allows.
   */
  lemma EnqueuedFailsExactly(cfg: Config, before: seq<Step>, steps: seq<Step>)
    requires Sensible(cfg) && AllWrite(before) && AllWrite(steps)
    requires var o := Run(cfg, START, before); AlwaysSpares(cfg, Exec(cfg, o, Enqueue), steps, |o.rows|)
    ensures var o := Run(cfg, START, before);
      var queued, id := Exec(cfg, o, Enqueue), |o.rows|;
      var after, n := Run(cfg, queued, steps), Failures(cfg, queued, steps, id);
      && id < |after.rows| && n <= cfg.maxAttempts
      && after.rows[id].status == if n == cfg.maxAttempts then Failed else Pending
  {
    var o := Run(cfg, START, before);
    RunKeeps(cfg, START, before);
    StepKeeps(cfg, o, Enqueue);
    EnqueuedStartsFailing(cfg, o);
    FailsAfterAllAttempts(cfg, Exec(cfg, o, Enqueue), steps, |o.rows|);
  }

  /**
   * A row that is never sent and on which no retry or cancel lands has, after any schedule whose ticks poll
   * no row in progress, exactly one attempt more for each failure written, and is failed exactly when none
   * is left. Runs whose result could not be written use up no attempt.
   */
  lemma {:induction false} FailsExactly(cfg: Config, o: Outbox, steps: seq<Step>, id: Id)
    requires cfg.maxAttempts >= 1 && Sound(cfg, o) && AlwaysClean(cfg, o, steps)
    requires Failing(cfg, o, id) && AlwaysSpares(cfg, o, steps, id)
    ensures var after, n := Run(cfg, o, steps), Failures(cfg, o, steps, id);
      && id < |after.rows|
      && after.rows[id].attempts == o.rows[id].attempts + n <= cfg.maxAttempts
      && after.rows[id].status == if o.rows[id].attempts + n == cfg.maxAttempts then Failed else Pending
    decreases |steps|
  {
    if steps != [] {
      var s := steps[0];
      CleanKeeps(cfg, o, s);
      if FailsRow(o, s, id) {
        FailingFails(cfg, o, s.d, s.w, s.now, id);
      } else {
        FailingStays(cfg, o, s, id);
      }
      FailsExactly(cfg, Exec(cfg, o, s), steps[1..], id);
    }
  }

  /** So without failed writes a row that always fails is failed after exactly the attempts it had left. */
  lemma FailsAfterAllAttempts(cfg: Config, o: Outbox, steps: seq<Step>, id: Id)
    requires Sensible(cfg) && Inv(cfg, o) && AllWrite(steps)
    requires Failing(cfg, o, id) && AlwaysSpares(cfg, o, steps, id)
    ensures var after, n := Run(cfg, o, steps), Failures(cfg, o, steps, id);
      && id < |after.rows|
      && after.rows[id].attempts == o.rows[id].attempts + n <= cfg.maxAttempts
      && after.rows[id].status == if n == cfg.maxAttempts - o.rows[id].attempts then Failed else Pending
  {
    WrittenMeansClean(cfg, o, steps);
    FailsExactly(cfg, o, steps, id);
  }
}
