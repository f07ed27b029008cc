/** The outbox as the worker process and the administration service update it. */
module EmailQueue {
  import opened Common
  import opened Outbox

  class EmailQueue {
    const cfg: Config
    var rows: seq<Email>
    /** Set while a poll's workers run. */
    var draining: bool
    var drains: seq<Drain>
    /** Calls of the administration service between their check and their write. */
    var admins: seq<AdminCall>

    constructor (cfg: Config)
      ensures this.cfg == cfg && View() == START
    {
      this.cfg := cfg;
      rows, draining, drains, admins := [], false, [], [];
    }

    ghost function View(): Outbox
      reads this
    {
      Outbox(rows, draining, drains, admins)
    }

    /** Polls the due rows, oldest first and no more than a batch, and starts their workers. */
    method RunTick(now: int)
      modifies this
      ensures View() == Exec(cfg, old(View()), Tick(now))
    {
      if draining {
        return;
      }
      var jobs: seq<Job> := [];
      for k := 0 to |rows|
        invariant jobs + DueJobs(rows, k, now) == DueJobs(rows, 0, now)
      {
        if Due(rows[k], now) {
          jobs := jobs + [Job(k, rows[k].attempts)];
        }
      }
      assert jobs + [] == jobs;
      if |jobs| > cfg.batchSize {
        jobs := jobs[..cfg.batchSize];
      }
      if jobs == [] {
        return;
      }
      var n := if cfg.concurrency <= |jobs| then cfg.concurrency else |jobs|;
      var workers: seq<Worker> := [];
      for k := 0 to n
        invariant workers == IdleWorkers(k)
      {
        workers := [Idle] + workers;
      }
      draining := true;
      drains := drains + [Drain(Ids(jobs), jobs, workers, [], [])];
    }

    /** One turn of a worker's loop: shifts the shared queue, or leaves. */
    method TakeNext(d: nat, w: nat)
      requires HasWorker(View(), d, w) && drains[d].workers[w].Idle?
      modifies this
      ensures View() == Exec(cfg, old(View()), Take(d, w))
    {
      var drain := drains[d];
      if |drain.queue| > 0 {
        drain := drain.(workers := drain.workers[w := Holding(drain.queue[0])], queue := drain.queue[1..]);
      } else {
        drain := drain.(workers := drain.workers[w := Gone]);
      }
      drains := drains[d := drain];
    }

    /** Writes the outcome of the row a worker holds: sent, failed for good, or pending again later. */
    method FinishRow(d: nat, w: nat, sent: bool, now: int)
      requires Holds(View(), d, w)
      modifies this
      ensures View() == Exec(cfg, old(View()), if sent then Succeed(d, w) else Fail(d, w, now))
    {
      var job := drains[d].workers[w].job;
      if sent {
        rows := rows[job.id := rows[job.id].(status := Sent)];
      } else {
        var attempts := job.attempts + 1;
        if attempts >= cfg.maxAttempts {
          rows := rows[job.id := Email(Failed, attempts, None)];
        } else {
          rows := rows[job.id := Email(Pending, attempts, Some(now + BackoffMs(cfg, attempts)))];
        }
      }
      drains := drains[d := drains[d].(workers := drains[d].workers[w := Idle], done := drains[d].done + [job.id])];
    }

    /** The result could not be written: the worker's promise rejects, and the first to do so ends the tick. */
    method LoseRow(d: nat, w: nat)
      requires Holds(View(), d, w)
      modifies this
      ensures View() == Exec(cfg, old(View()), Break(d, w))
    {
      var drain := drains[d];
      if drain.lost == [] {
        draining := false;
      }
      var id := drain.workers[w].job.id;
      drains := drains[d := drain.(workers := drain.workers[w := Gone], lost := drain.lost + [id])];
    }

    /** All workers have left: the tick ends and lets the next one poll. */
    method Finish(d: nat)
      requires d < |drains| && AllGone(drains[d].workers)
      modifies this
      ensures View() == Exec(cfg, old(View()), EndDrain(d))
    {
      if drains[d].lost == [] {
        draining := false;
      }
      drains := drains[..d] + drains[d + 1..];
    }

    /** A manual retry or cancel, up to its first await: an unknown or sent row refuses it. */
    method CheckRow(id: Id, action: AdminAction) returns (r: Result<()>)
      modifies this
      ensures View() == Exec(cfg, old(View()), AdminCheck(id, action))
      ensures r.Ok? <==> id < |old(rows)| && old(rows)[id].status != Sent
      ensures r.Err? ==> r.error == if id < |old(rows)| then EmailAlreadySent else EmailLogNotFound
    {
      if id >= |rows| {
        return Err(EmailLogNotFound);
      }
      if rows[id].status == Sent {
        return Err(EmailAlreadySent);
      }
      admins := admins + [AdminCall(id, action)];
      r := Ok(());
    }

    /** The rest of the call: a fresh cycle of attempts due at once, or no attempts at all. */
    method WriteRow(a: nat, now: int)
      requires a < |admins| && admins[a].id < |rows|
      modifies this
      ensures View() == Exec(cfg, old(View()), AdminWrite(a, now))
    {
      var call := admins[a];
      match call.action {
        case RetryRow => rows := rows[call.id := Email(Pending, 0, Some(now))];
        case CancelRow => rows := rows[call.id := rows[call.id].(status := Cancelled, nextAttemptAt := None)];
      }
      admins := admins[..a] + admins[a + 1..];
    }
  }
}
