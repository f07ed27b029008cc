/**
 * Two schedules that go wrong: one where a worker cannot write its result, and one where an administrator
 * writes a row that was sent since the check.
 */
module OutboxFailures {
  import opened Common
  import opened Outbox
  import opened OutboxLaws
  import opened OutboxRows

  // ----- a failed write -----

  const TWO_DUE := [Email(Pending, 0, None), Email(Pending, 0, None)]

  /** Two workers hold the rows of a batch of two. */
  const BOTH_HELD := Drain([0, 1], [], [Holding(Job(0, 0)), Holding(Job(1, 0))], [], [])

  lemma PollTwo(cfg: Config, now: int)
    requires cfg.batchSize >= 2
    ensures Poll(cfg, TWO_DUE, now) == [Job(0, 0), Job(1, 0)] && Ids([Job(0, 0), Job(1, 0)]) == [0, 1]
  {
    assert DueJobs(TWO_DUE, 2, now) == [];
    assert DueJobs(TWO_DUE, 1, now) == [Job(1, 0)];
    assert [Job(0, 0), Job(1, 0)][1..] == [Job(1, 0)] && [Job(1, 0)][1..] == [];
  }

  /** From a state with `drains` and no flag, a tick polls both rows and two workers take them. */
  lemma PollAndTake(cfg: Config, o: Outbox, now: int)
    requires cfg.concurrency >= 2 && cfg.batchSize >= 2 && o.rows == TWO_DUE && !o.draining
    ensures var d := |o.drains|;
      Run(cfg, o, [Tick(now), Take(d, 0), Take(d, 1)]) == Outbox(TWO_DUE, true, o.drains + [BOTH_HELD], o.admins)
  {
    var d, a, b := |o.drains|, Job(0, 0), Job(1, 0);
    PollTwo(cfg, now);
    assert IdleWorkers(2) == [Idle, Idle] by {
      IdleHoldNothing(2, 0);
    }
    var polled, one := Drain([0, 1], [a, b], [Worker.Idle, Worker.Idle], [], []),
                       Drain([0, 1], [b], [Holding(a), Worker.Idle], [], []);
    var o1 := Exec(cfg, o, Tick(now));
    assert o1 == Outbox(TWO_DUE, true, o.drains + [polled], o.admins);
    var o2 := Exec(cfg, o1, Take(d, 0));
    assert [a, b][1..] == [b] && [b][1..] == [];
    assert o2.drains[d] == one && o2.drains == o.drains + [one];
    var o3 := Exec(cfg, o2, Take(d, 1));
    assert o3.drains[d] == BOTH_HELD && o3.drains == o.drains + [BOTH_HELD];
    RunAt(cfg, o, Tick(now), [Take(d, 0), Take(d, 1)]);
    RunAt(cfg, o1, Take(d, 0), [Take(d, 1)]);
    RunAt(cfg, o2, Take(d, 1), []);
    assert [Tick(now), Take(d, 0), Take(d, 1)] == [Tick(now)] + [Take(d, 0), Take(d, 1)];
    assert [Take(d, 0), Take(d, 1)] == [Take(d, 0)] + [Take(d, 1)] && [Take(d, 1)] == [Take(d, 1)] + [];
  }

  /**
   * When a worker cannot write its result, single holding fails: two rows are polled and taken, the
   * first worker breaks, the drain flag is cleared while the second still runs, and the next tick polls
   * both rows again, so the second row ends up held by two workers.
   */
  lemma FailedWriteBreaksHolding(cfg: Config)
    requires cfg.concurrency >= 2 && cfg.batchSize >= 2
    ensures var first := Run(cfg, Run(cfg, START, [Enqueue, Enqueue]), [Tick(0), Take(0, 0), Take(0, 1)]);
      var last := Run(cfg, Exec(cfg, first, Break(0, 0)), [Tick(1), Take(1, 0), Take(1, 1)]);
      && TwoHolders(last, 0, 1, 1, 1) && last.rows == TWO_DUE
      && last.drains[0].workers[1] == last.drains[1].workers[1] == Holding(Job(1, 0))
  {
    var o := Run(cfg, START, [Enqueue, Enqueue]);
    RunAt(cfg, START, Enqueue, [Enqueue]);
    RunAt(cfg, Exec(cfg, START, Enqueue), Enqueue, []);
    assert [Enqueue, Enqueue] == [Enqueue] + [Enqueue] && [Enqueue] == [Enqueue] + [];
    assert o == Outbox(TWO_DUE, false, [], []);
    PollAndTake(cfg, o, 0);
    assert o.drains + [BOTH_HELD] == [BOTH_HELD];
    var broken := Exec(cfg, Outbox(TWO_DUE, true, [BOTH_HELD], []), Break(0, 0));
    assert broken.drains[0].workers[1] == Holding(Job(1, 0));
    PollAndTake(cfg, broken, 1);
  }

  /** From there being sent is not final: one holder sends the row, and the other's failure makes it pending again. */
  lemma SentRowComesBack(cfg: Config, o: Outbox, now: int)
    requires cfg.maxAttempts >= 2 && TwoHolders(o, 0, 1, 1, 1) && o.rows == TWO_DUE
    requires o.drains[0].workers[1] == o.drains[1].workers[1] == Holding(Job(1, 0))
    ensures var sent := Exec(cfg, o, Succeed(0, 1));
      && sent.rows[1].status == Sent
      && Exec(cfg, sent, Fail(1, 1, now)).rows[1].status == Pending
  {
    var sent := Exec(cfg, o, Succeed(0, 1));
    assert sent.drains[1] == o.drains[1];
  }

  lemma {:induction false} RunOn(cfg: Config, o: Outbox, a: seq<Step>, b: seq<Step>)
    ensures Run(cfg, o, a + b) == Run(cfg, Run(cfg, o, a), b)
    decreases |a|
  {
    if a == [] {
      assert a + b == b;
    } else {
      RunOn(cfg, Exec(cfg, o, a[0]), a[1..], b);
      assert (a + b)[1..] == a[1..] + b;
    }
  }

  /** With two workers and two rows to a batch, some schedule ends with a row held twice. */
  lemma TwoHoldersReached(cfg: Config) returns (steps: seq<Step>)
    requires !OneAtATime(cfg)
    ensures !SingleHolder(Run(cfg, START, steps))
  {
    var a, b := [Enqueue, Enqueue], [Tick(0), Take(0, 0), Take(0, 1)];
    var c, d := [Break(0, 0)], [Tick(1), Take(1, 0), Take(1, 1)];
    steps := a + b + c + d;
    FailedWriteBreaksHolding(cfg);
    RunOn(cfg, START, a + b + c, d);
    RunOn(cfg, START, a + b, c);
    RunOn(cfg, START, a, b);
    RunAt(cfg, Run(cfg, START, a + b), Break(0, 0), []);
    assert c == [Break(0, 0)] + [];
    assert TwoHolders(Run(cfg, START, steps), 0, 1, 1, 1);
  }

  lemma {:induction false} AlwaysOnceToTheEnd(cfg: Config, o: Outbox, steps: seq<Step>)
    requires AlwaysOnce(cfg, o, steps)
    ensures AtMostOnce(Run(cfg, o, steps))
    decreases |steps|
  {
    if steps != [] {
      AlwaysOnceToTheEnd(cfg, Exec(cfg, o, steps[0]), steps[1..]);
    }
  }

  /**
   * Over all schedules, failed writes included, no row is ever held by two workers exactly when the
   * configuration gives a drain at most one worker: one worker, or one row to a batch.
   */
  lemma HeldOnceExactly(cfg: Config)
    ensures (forall steps :: SingleHolder(Run(cfg, START, steps))) <==> OneAtATime(cfg)
  {
    if OneAtATime(cfg) {
      forall steps ensures SingleHolder(Run(cfg, START, steps)) {
        RunsLone(cfg, START, steps);
        LoneHolder(Run(cfg, START, steps));
      }
    } else {
      var steps := TwoHoldersReached(cfg);
      assert !SingleHolder(Run(cfg, START, steps));
    }
  }

  /** That is also exactly when no tick ever polls a row still in progress. */
  lemma CleanExactly(cfg: Config)
    ensures (forall steps :: AlwaysClean(cfg, START, steps)) <==> OneAtATime(cfg)
  {
    if OneAtATime(cfg) {
      forall steps ensures AlwaysClean(cfg, START, steps) {
        RunsLone(cfg, START, steps);
      }
    } else {
      var steps := TwoHoldersReached(cfg);
      if AlwaysClean(cfg, START, steps) {
        OnceExactlyWhenClean(cfg, START, steps);
        AlwaysOnceToTheEnd(cfg, START, steps);
        OnceMeansSingleHolder(Run(cfg, START, steps));
      }
      assert !AlwaysClean(cfg, START, steps);
    }
  }

  // ----- a late write -----

  /** Row 0 is held by the only worker of its drain. */
  const ONE_HELD := Drain([0], [], [Holding(Job(0, 0))], [], [])

  const ONE_DONE := Drain([0], [], [Idle], [0], [])

  lemma PollOne(cfg: Config, row: Email, now: int)
    requires cfg.batchSize >= 1 && cfg.concurrency >= 1 && Due(row, now)
    ensures Poll(cfg, [row], now) == [Job(0, row.attempts)]
    ensures NewDrain(cfg, [Job(0, row.attempts)]) == Drain([0], [Job(0, row.attempts)], [Idle], [], [])
  {
    assert DueJobs([row], 1, now) == [];
    assert [Job(0, row.attempts)][1..] == [];
    assert Ids([Job(0, row.attempts)]) == [0] + Ids([]);
    assert IdleWorkers(1) == [Idle] + IdleWorkers(0);
  }

  lemma HoldOne(cfg: Config)
    requires cfg.batchSize >= 1 && cfg.concurrency >= 1
    ensures Run(cfg, START, [Enqueue, Tick(0), Take(0, 0)]) == Outbox([Email(Pending, 0, None)], true, [ONE_HELD], [])
  {
    var row := Email(Pending, 0, None);
    PollOne(cfg, row, 0);
    var o1 := Exec(cfg, START, Enqueue);
    assert o1 == Outbox([row], false, [], []);
    var o2 := Exec(cfg, o1, Tick(0));
    assert o2 == Outbox([row], true, [Drain([0], [Job(0, 0)], [Idle], [], [])], []);
    assert [Job(0, 0)][1..] == [];
    assert Exec(cfg, o2, Take(0, 0)).drains[0] == ONE_HELD;
    RunAt(cfg, START, Enqueue, [Tick(0), Take(0, 0)]);
    RunAt(cfg, o1, Tick(0), [Take(0, 0)]);
    RunAt(cfg, o2, Take(0, 0), []);
    assert [Enqueue, Tick(0), Take(0, 0)] == [Enqueue] + [Tick(0), Take(0, 0)];
    assert [Tick(0), Take(0, 0)] == [Tick(0)] + [Take(0, 0)] && [Take(0, 0)] == [Take(0, 0)] + [];
  }

  lemma SendHeld(cfg: Config, action: AdminAction)
    ensures var held := Outbox([Email(Pending, 0, None)], true, [ONE_HELD], []);
      Exec(cfg, Exec(cfg, held, AdminCheck(0, action)), Succeed(0, 0))
      == Outbox([Email(Sent, 0, None)], true, [ONE_DONE], [AdminCall(0, action)])
  {
    var checked := Outbox([Email(Pending, 0, None)], true, [ONE_HELD], [AdminCall(0, action)]);
    assert FinishIn(ONE_HELD, 0) == ONE_DONE;
    assert Exec(cfg, checked, Succeed(0, 0)).drains == [ONE_DONE];
  }

  lemma PollAgain(cfg: Config, now: int)
    requires cfg.batchSize >= 1 && cfg.concurrency >= 1
    ensures var late := Outbox([Email(Pending, 0, Some(now))], true, [ONE_DONE], []);
      Exec(cfg, Exec(cfg, Exec(cfg, late, Take(0, 0)), EndDrain(0)), Tick(now)).drains
      == [Drain([0], [Job(0, 0)], [Idle], [], [])]
  {
    var row := Email(Pending, 0, Some(now));
    var left := Drain([0], [], [Gone], [0], []);
    assert TakeIn(ONE_DONE, 0) == left && [Gone][1..] == [];
    assert Exec(cfg, Outbox([row], true, [ONE_DONE], []), Take(0, 0)) == Outbox([row], true, [left], []);
    assert Exec(cfg, Outbox([row], true, [left], []), EndDrain(0)) == Outbox([row], false, [], []);
    PollOne(cfg, row, now);
  }

  /**
   * With every write succeeding, being sent is not final: a call checks a row while a worker holds it, the
   * worker sends it, and the call writes. A cancel makes the sent row cancelled; a retry makes it pending,
   * and once the drain is over the next tick polls it to be sent again.
   */
  lemma LateWriteUnsends(cfg: Config, action: AdminAction, now: int)
    requires cfg.batchSize >= 1 && cfg.concurrency >= 1
    ensures var held := Run(cfg, START, [Enqueue, Tick(0), Take(0, 0)]);
      var sent := Exec(cfg, Exec(cfg, held, AdminCheck(0, action)), Succeed(0, 0));
      var late := Exec(cfg, sent, AdminWrite(0, now));
      && sent.rows == [Email(Sent, 0, None)]
      && late.rows == [if action == RetryRow then Email(Pending, 0, Some(now)) else Email(Cancelled, 0, None)]
      && (action == RetryRow ==>
            Exec(cfg, Exec(cfg, Exec(cfg, late, Take(0, 0)), EndDrain(0)), Tick(now)).drains
            == [Drain([0], [Job(0, 0)], [Idle], [], [])])
  {
    HoldOne(cfg);
    SendHeld(cfg, action);
    var sent := Outbox([Email(Sent, 0, None)], true, [ONE_DONE], [AdminCall(0, action)]);
    assert Exec(cfg, sent, AdminWrite(0, now)).admins == [];
    PollAgain(cfg, now);
  }
}
