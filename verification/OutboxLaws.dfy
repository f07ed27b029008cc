/**
 * What the outbox keeps over every schedule of ticks, workers, retries and cancels: within one drain,
 * across drains, and, when no worker fails to write its result, thanks to the drain flag.
 */
module OutboxLaws {
  import opened Common
  import opened Outbox

  // ----- counting where a row is -----

  function Times(ids: seq<Id>, id: Id): nat {
    if ids == [] then 0 else (if ids[0] == id then 1 else 0) + Times(ids[1..], id)
  }

  function Has(worker: Worker, id: Id): nat {
    if worker.Holding? && worker.job.id == id then 1 else 0
  }

  /** How many workers hold row `id`. */
  function HeldBy(workers: seq<Worker>, id: Id): nat {
    if workers == [] then 0 else Has(workers[0], id) + HeldBy(workers[1..], id)
  }

  function QueuedFor(jobs: seq<Job>, id: Id): nat {
    if jobs == [] then 0 else (if jobs[0].id == id then 1 else 0) + QueuedFor(jobs[1..], id)
  }

  /** How often row `id` still has to be finished in a drain: held by a worker, or queued. */
  function PlacesIn(drain: Drain, id: Id): nat {
    HeldBy(drain.workers, id) + QueuedFor(drain.queue, id)
  }

  /** The same, unless all workers of the drain have left: what is queued then is run no more. */
  function InProgress(drain: Drain, id: Id): nat {
    if AllGone(drain.workers) then 0 else PlacesIn(drain, id)
  }

  function GoneCount(workers: seq<Worker>): nat {
    if workers == [] then 0 else (if workers[0] == Gone then 1 else 0) + GoneCount(workers[1..])
  }

  lemma {:induction false} HeldByUpdate(workers: seq<Worker>, w: nat, worker: Worker, id: Id)
    requires w < |workers|
    ensures HeldBy(workers[w := worker], id) == HeldBy(workers, id) - Has(workers[w], id) + Has(worker, id)
  {
    if w == 0 {
      assert workers[0 := worker][1..] == workers[1..];
    } else {
      HeldByUpdate(workers[1..], w - 1, worker, id);
      assert workers[w := worker][1..] == workers[1..][w - 1 := worker];
    }
  }

  lemma {:induction false} HeldByOne(workers: seq<Worker>, w: nat)
    requires w < |workers| && workers[w].Holding?
    ensures HeldBy(workers, workers[w].job.id) >= 1
  {
    if w > 0 {
      HeldByOne(workers[1..], w - 1);
    }
  }

  lemma {:induction false} HeldByTwo(workers: seq<Worker>, v: nat, w: nat)
    requires v < w < |workers| && workers[v].Holding? && workers[w].Holding? && workers[v].job.id == workers[w].job.id
    ensures HeldBy(workers, workers[w].job.id) >= 2
  {
    if v == 0 {
      HeldByOne(workers[1..], w - 1);
    } else {
      HeldByTwo(workers[1..], v - 1, w - 1);
    }
  }

  lemma {:induction false} QueuedForOne(jobs: seq<Job>, k: nat)
    requires k < |jobs|
    ensures QueuedFor(jobs, jobs[k].id) >= 1
  {
    if k > 0 {
      QueuedForOne(jobs[1..], k - 1);
    }
  }

  lemma {:induction false} IdleHoldNothing(n: nat, id: Id)
    ensures |IdleWorkers(n)| == n && HeldBy(IdleWorkers(n), id) == 0
    ensures forall w :: 0 <= w < n ==> IdleWorkers(n)[w] == Idle
  {
    if n > 0 {
      IdleHoldNothing(n - 1, id);
    }
  }

  lemma {:induction false} GoneHoldNothing(workers: seq<Worker>, id: Id)
    requires AllGone(workers)
    ensures HeldBy(workers, id) == 0
  {
    if workers != [] {
      GoneHoldNothing(workers[1..], id);
    }
  }

  lemma {:induction false} GoneUpdate(workers: seq<Worker>, w: nat, worker: Worker)
    requires w < |workers|
    ensures GoneCount(workers[w := worker])
         == GoneCount(workers) - (if workers[w] == Gone then 1 else 0) + if worker == Gone then 1 else 0
  {
    if w == 0 {
      assert workers[0 := worker][1..] == workers[1..];
    } else {
      GoneUpdate(workers[1..], w - 1, worker);
      assert workers[w := worker][1..] == workers[1..][w - 1 := worker];
    }
  }

  lemma {:induction false} AllAreGone(workers: seq<Worker>)
    requires AllGone(workers)
    ensures GoneCount(workers) == |workers|
  {
    if workers != [] {
      AllAreGone(workers[1..]);
    }
  }

  lemma {:induction false} NoneIsGone(n: nat)
    ensures GoneCount(IdleWorkers(n)) == 0
  {
    if n > 0 {
      NoneIsGone(n - 1);
      assert IdleWorkers(n)[1..] == IdleWorkers(n - 1);
    }
  }

  lemma {:induction false} TimesAppend(ids: seq<Id>, last: Id, id: Id)
    ensures Times(ids + [last], id) == Times(ids, id) + if last == id then 1 else 0
  {
    if ids == [] {
      assert ids + [last] == [last] && [last][1..] == [];
    } else {
      TimesAppend(ids[1..], last, id);
      assert (ids + [last])[1..] == ids[1..] + [last];
    }
  }

  lemma {:induction false} IdsQueued(jobs: seq<Job>, id: Id)
    ensures Times(Ids(jobs), id) == QueuedFor(jobs, id)
  {
    if jobs != [] {
      IdsQueued(jobs[1..], id);
      assert Ids(jobs)[1..] == Ids(jobs[1..]);
    }
  }

  /** Due rows come in index order, so a batch never lists a row twice. */
  lemma {:induction false} DueJobsFit(rows: seq<Email>, from: nat, now: int)
    requires from <= |rows|
    ensures forall k :: 0 <= k < |DueJobs(rows, from, now)| ==>
              var job := DueJobs(rows, from, now)[k];
              from <= job.id < |rows| && rows[job.id].status == Pending && rows[job.id].attempts == job.attempts
    ensures Ascending(DueJobs(rows, from, now))
    decreases |rows| - from
  {
    if from < |rows| {
      DueJobsFit(rows, from + 1, now);
    }
  }

  ghost predicate Ascending(jobs: seq<Job>) {
    forall j, k :: 0 <= j < k < |jobs| ==> jobs[j].id < jobs[k].id
  }

  lemma {:induction false} AscendingOnce(jobs: seq<Job>, id: Id)
    requires Ascending(jobs)
    ensures QueuedFor(jobs, id) <= 1
    ensures (forall k :: 0 <= k < |jobs| ==> jobs[k].id > id) ==> QueuedFor(jobs, id) == 0
  {
    if jobs != [] {
      AscendingOnce(jobs[1..], id);
    }
  }

  lemma {:induction false} QueuedSomewhere(jobs: seq<Job>, id: Id) returns (k: nat)
    requires QueuedFor(jobs, id) > 0
    ensures k < |jobs| && jobs[k].id == id
  {
    if jobs[0].id == id {
      k := 0;
    } else {
      var j := QueuedSomewhere(jobs[1..], id);
      k := j + 1;
    }
  }

  lemma {:induction false} StaffedBy(workers: seq<Worker>, w: nat)
    requires w < |workers| && workers[w] != Gone
    ensures !AllGone(workers)
  {
    if w > 0 {
      StaffedBy(workers[1..], w - 1);
    }
  }

  // ----- one drain -----

  /**
   * Row `id` is in the batch at most once, and then it is finished, lost, held or queued: one of these.
   * While rows are queued only workers that lost theirs are gone.
   */
  ghost predicate Settled(drain: Drain) {
    && (forall id :: Times(drain.batch, id)
                  == Times(drain.done, id) + Times(drain.lost, id) + PlacesIn(drain, id) <= 1)
    && (drain.queue != [] ==> GoneCount(drain.workers) == |drain.lost|)
  }

  ghost predicate AllSettled(o: Outbox) {
    forall d :: 0 <= d < |o.drains| ==> Settled(o.drains[d])
  }

  /** What a step of worker `w` does to the places of the rows of its drain. */
  lemma WorkerPlaces(drain: Drain, w: nat, id: Id)
    requires w < |drain.workers|
    ensures drain.workers[w].Idle? ==> PlacesIn(TakeIn(drain, w), id) == PlacesIn(drain, id)
    ensures drain.workers[w].Holding? ==>
              PlacesIn(FinishIn(drain, w), id) == PlacesIn(BreakIn(drain, w), id)
              == PlacesIn(drain, id) - Has(drain.workers[w], id)
  {
    HeldByUpdate(drain.workers, w, TakeIn(drain, w).workers[w], id);
    HeldByUpdate(drain.workers, w, Idle, id);
    HeldByUpdate(drain.workers, w, Gone, id);
  }

  lemma TakeSettles(drain: Drain, w: nat)
    requires Settled(drain) && w < |drain.workers| && drain.workers[w].Idle?
    ensures Settled(TakeIn(drain, w))
  {
    forall id ensures PlacesIn(TakeIn(drain, w), id) == PlacesIn(drain, id) {
      WorkerPlaces(drain, w, id);
    }
    GoneUpdate(drain.workers, w, TakeIn(drain, w).workers[w]);
  }

  lemma FinishSettles(drain: Drain, w: nat)
    requires Settled(drain) && w < |drain.workers| && drain.workers[w].Holding?
    ensures Settled(FinishIn(drain, w)) && Settled(BreakIn(drain, w))
  {
    forall id
      ensures Times(FinishIn(drain, w).done, id) + PlacesIn(FinishIn(drain, w), id)
           == Times(BreakIn(drain, w).lost, id) - Times(drain.lost, id) + Times(drain.done, id)
              + PlacesIn(BreakIn(drain, w), id)
           == Times(drain.done, id) + PlacesIn(drain, id)
    {
      WorkerPlaces(drain, w, id);
      TimesAppend(drain.done, drain.workers[w].job.id, id);
      TimesAppend(drain.lost, drain.workers[w].job.id, id);
    }
    GoneUpdate(drain.workers, w, Idle);
    GoneUpdate(drain.workers, w, Gone);
  }

  lemma NewDrainPlaces(cfg: Config, jobs: seq<Job>, id: Id)
    ensures PlacesIn(NewDrain(cfg, jobs), id) == QueuedFor(jobs, id)
  {
    IdleHoldNothing(if cfg.concurrency <= |jobs| then cfg.concurrency else |jobs|, id);
  }

  lemma NewDrainSettles(cfg: Config, rows: seq<Email>, now: int)
    ensures Settled(NewDrain(cfg, Poll(cfg, rows, now)))
  {
    var jobs := Poll(cfg, rows, now);
    DueJobsFit(rows, 0, now);
    forall id ensures Times(Ids(jobs), id) == PlacesIn(NewDrain(cfg, jobs), id) <= 1 {
      NewDrainPlaces(cfg, jobs, id);
      IdsQueued(jobs, id);
      AscendingOnce(jobs, id);
    }
    NoneIsGone(if cfg.concurrency <= |jobs| then cfg.concurrency else |jobs|);
  }

  lemma StepSettles(cfg: Config, o: Outbox, s: Step)
    requires AllSettled(o)
    ensures AllSettled(Exec(cfg, o, s))
  {
    if Enabled(o, s) {
      match s {
        case Tick(now) => NewDrainSettles(cfg, o.rows, now);
        case Take(d, w) => TakeSettles(o.drains[d], w);
        case Succeed(d, w) => FinishSettles(o.drains[d], w);
        case Fail(d, w, _) => FinishSettles(o.drains[d], w);
        case Break(d, w) => FinishSettles(o.drains[d], w);
        case _ =>
      }
    }
  }

  lemma {:induction false} RunSettles(cfg: Config, o: Outbox, steps: seq<Step>)
    requires AllSettled(o)
    ensures AllSettled(Run(cfg, o, steps))
    decreases |steps|
  {
    if steps != [] {
      StepSettles(cfg, o, steps[0]);
      RunSettles(cfg, Exec(cfg, o, steps[0]), steps[1..]);
    }
  }

  /**
   * In every schedule, failed writes included, when all workers of a drain have left, each row of its
   * batch was either finished exactly once, or lost by the worker that held it, or left in the queue;
   * rows are left only when every worker lost its row.
   */
  lemma BatchEndsExactly(cfg: Config, steps: seq<Step>, d: nat, id: Id)
    requires Enabled(Run(cfg, START, steps), EndDrain(d))
    ensures var drain := Run(cfg, START, steps).drains[d];
      && Times(drain.batch, id) == Times(drain.done, id) + Times(drain.lost, id) + QueuedFor(drain.queue, id) <= 1
      && (drain.queue != [] ==> |drain.lost| == |drain.workers|)
  {
    RunSettles(cfg, START, steps);
    var drain := Run(cfg, START, steps).drains[d];
    GoneHoldNothing(drain.workers, id);
    AllAreGone(drain.workers);
  }

  /** Every drain has workers, with at least one configured. */
  ghost predicate Manned(o: Outbox) {
    forall d :: 0 <= d < |o.drains| ==> o.drains[d].workers != []
  }

  lemma {:induction false} RunMans(cfg: Config, o: Outbox, steps: seq<Step>)
    requires cfg.concurrency >= 1 && Manned(o)
    ensures Manned(Run(cfg, o, steps))
    decreases |steps|
  {
    if steps != [] {
      var s := steps[0];
      if s.Tick? {
        var jobs := Poll(cfg, o.rows, s.now);
        IdleHoldNothing(if cfg.concurrency <= |jobs| then cfg.concurrency else |jobs|, 0);
      }
      RunMans(cfg, Exec(cfg, o, s), steps[1..]);
    }
  }

  /**
   * In every schedule, when all workers of a drain have left, every row of its batch has been finished, and so
   * exactly once, exactly when no worker of the drain failed to write its result.
   */
  lemma BatchRunExactly(cfg: Config, steps: seq<Step>, d: nat)
    requires cfg.concurrency >= 1 && Enabled(Run(cfg, START, steps), EndDrain(d))
    ensures var drain := Run(cfg, START, steps).drains[d];
      (forall id :: Times(drain.done, id) == Times(drain.batch, id)) <==> drain.lost == []
  {
    RunMans(cfg, START, steps);
    var drain := Run(cfg, START, steps).drains[d];
    if drain.lost == [] {
      forall id ensures Times(drain.done, id) == Times(drain.batch, id) {
        BatchEndsExactly(cfg, steps, d, id);
      }
    } else {
      BatchEndsExactly(cfg, steps, d, drain.lost[0]);
      assert Times(drain.done, drain.lost[0]) < Times(drain.batch, drain.lost[0]);
    }
  }

  // ----- across drains -----

  /** What a step of worker `w` does to the rows in progress in its drain. */
  lemma WorkerProgress(drain: Drain, w: nat, id: Id)
    requires w < |drain.workers|
    ensures drain.workers[w].Idle? ==> InProgress(TakeIn(drain, w), id) == InProgress(drain, id)
    ensures drain.workers[w].Holding? ==>
              && InProgress(FinishIn(drain, w), id) == InProgress(drain, id) - Has(drain.workers[w], id)
              && InProgress(BreakIn(drain, w), id) <= InProgress(drain, id) - Has(drain.workers[w], id)
  {
    WorkerPlaces(drain, w, id);
    if drain.workers[w] != Gone {
      StaffedBy(drain.workers, w);
    }
    if drain.workers[w].Holding? {
      StaffedBy(FinishIn(drain, w).workers, w);
    }
    if drain.workers[w].Idle? {
      if drain.queue != [] {
        StaffedBy(TakeIn(drain, w).workers, w);
      } else if AllGone(TakeIn(drain, w).workers) {
        GoneHoldNothing(TakeIn(drain, w).workers, id);
      }
    }
  }

  lemma NewDrainProgress(cfg: Config, jobs: seq<Job>, id: Id)
    requires jobs != []
    ensures InProgress(NewDrain(cfg, jobs), id) == if cfg.concurrency > 0 then QueuedFor(jobs, id) else 0
  {
    var n := if cfg.concurrency <= |jobs| then cfg.concurrency else |jobs|;
    NewDrainPlaces(cfg, jobs, id);
    IdleHoldNothing(n, id);
    if n > 0 {
      StaffedBy(IdleWorkers(n), 0);
    }
  }


  function Places(drains: seq<Drain>, id: Id): nat {
    if drains == [] then 0 else InProgress(drains[0], id) + Places(drains[1..], id)
  }

  /** No row is in progress twice, within a drain or across drains. */
  ghost predicate AtMostOnce(o: Outbox) {
    forall id :: Places(o.drains, id) <= 1
  }

  lemma {:induction false} PlacesSplit(a: seq<Drain>, b: seq<Drain>, id: Id)
    ensures Places(a + b, id) == Places(a, id) + Places(b, id)
  {
    if a == [] {
      assert a + b == b;
    } else {
      PlacesSplit(a[1..], b, id);
      assert (a + b)[1..] == a[1..] + b;
    }
  }

  lemma PlacesAt(drains: seq<Drain>, d: nat, id: Id)
    requires d < |drains|
    ensures Places(drains, id) == Places(drains[..d], id) + InProgress(drains[d], id) + Places(drains[d + 1..], id)
  {
    assert drains == drains[..d] + ([drains[d]] + drains[d + 1..]);
    PlacesSplit(drains[..d], [drains[d]] + drains[d + 1..], id);
    assert ([drains[d]] + drains[d + 1..])[1..] == drains[d + 1..];
  }

  lemma PlacesUpdate(drains: seq<Drain>, d: nat, drain: Drain, id: Id)
    requires d < |drains|
    ensures Places(drains[d := drain], id) == Places(drains, id) - InProgress(drains[d], id) + InProgress(drain, id)
  {
    PlacesAt(drains, d, id);
    PlacesAt(drains[d := drain], d, id);
    assert drains[d := drain][..d] == drains[..d] && drains[d := drain][d + 1..] == drains[d + 1..];
  }

  lemma HolderHasPlace(o: Outbox, d: nat, w: nat)
    requires HasWorker(o, d, w) && o.drains[d].workers[w].Holding?
    ensures InProgress(o.drains[d], o.drains[d].workers[w].job.id) >= 1
  {
    HeldByOne(o.drains[d].workers, w);
    StaffedBy(o.drains[d].workers, w);
  }

  lemma TwoDrains(drains: seq<Drain>, d: nat, e: nat, id: Id)
    requires d < e < |drains| && InProgress(drains[d], id) >= 1 && InProgress(drains[e], id) >= 1
    ensures Places(drains, id) >= 2
  {
    PlacesAt(drains, d, id);
    PlacesAt(drains[d + 1..], e - d - 1, id);
  }

  /** Two different workers, of one drain or of two. */
  predicate TwoHolders(o: Outbox, d: nat, w: nat, e: nat, v: nat) {
    && HasWorker(o, d, w) && HasWorker(o, e, v) && (d != e || w != v)
    && o.drains[d].workers[w].Holding? && o.drains[e].workers[v].Holding?
    && o.drains[d].workers[w].job.id == o.drains[e].workers[v].job.id
  }

  ghost predicate SingleHolder(o: Outbox) {
    forall d: nat, w: nat, e: nat, v: nat :: !TwoHolders(o, d, w, e, v)
  }

  /** With every row in at most one place no row has two holders. */
  lemma OnceMeansSingleHolder(o: Outbox)
    requires AtMostOnce(o)
    ensures SingleHolder(o)
  {
    forall d: nat, w: nat, e: nat, v: nat ensures !TwoHolders(o, d, w, e, v) {
      if TwoHolders(o, d, w, e, v) {
        var id := o.drains[d].workers[w].job.id;
        assert Places(o.drains, id) <= 1;
        HolderHasPlace(o, d, w);
        HolderHasPlace(o, e, v);
        if d == e {
          HeldByTwo(o.drains[d].workers, if w < v then w else v, if w < v then v else w);
          PlacesAt(o.drains, d, id);
        } else {
          TwoDrains(o.drains, if d < e then d else e, if d < e then e else d, id);
        }
      }
    }
  }

  /** A tick is dropped, has no workers to start, or polls no row that is still in progress. */
  ghost predicate Clean(cfg: Config, o: Outbox, s: Step) {
    s.Tick? && !o.draining && cfg.concurrency > 0 ==>
      forall k :: 0 <= k < |Poll(cfg, o.rows, s.now)| ==> Places(o.drains, Poll(cfg, o.rows, s.now)[k].id) == 0
  }

  lemma TickPlaces(cfg: Config, o: Outbox, now: int, id: Id)
    requires !o.draining
    ensures Places(TickStep(cfg, o, now).drains, id)
         == Places(o.drains, id) + if cfg.concurrency > 0 then QueuedFor(Poll(cfg, o.rows, now), id) else 0
    ensures QueuedFor(Poll(cfg, o.rows, now), id) <= 1
  {
    var jobs := Poll(cfg, o.rows, now);
    DueJobsFit(o.rows, 0, now);
    AscendingOnce(jobs, id);
    if jobs != [] {
      PlacesSplit(o.drains, [NewDrain(cfg, jobs)], id);
      assert [NewDrain(cfg, jobs)][1..] == [];
      NewDrainProgress(cfg, jobs, id);
    }
  }

  /** A tick keeps every row in one place exactly when it polls none that is in progress. */
  lemma TickExactly(cfg: Config, o: Outbox, now: int)
    requires AtMostOnce(o)
    ensures AtMostOnce(TickStep(cfg, o, now)) <==> Clean(cfg, o, Tick(now))
  {
    var jobs, after := Poll(cfg, o.rows, now), TickStep(cfg, o, now);
    if !o.draining {
      forall k | AtMostOnce(after) && cfg.concurrency > 0 && 0 <= k < |jobs| ensures Places(o.drains, jobs[k].id) == 0 {
        TickPlaces(cfg, o, now, jobs[k].id);
        QueuedForOne(jobs, k);
        assert Places(after.drains, jobs[k].id) <= 1;
      }
      forall id | Clean(cfg, o, Tick(now)) ensures Places(after.drains, id) <= 1 {
        TickPlaces(cfg, o, now, id);
        if cfg.concurrency > 0 && QueuedFor(jobs, id) > 0 {
          var k := QueuedSomewhere(jobs, id);
        }
      }
    }
  }

  /** No step but a tick puts a row in more places, a failed write included. */
  lemma OtherSteps(cfg: Config, o: Outbox, s: Step, id: Id)
    requires !s.Tick?
    ensures Places(Exec(cfg, o, s).drains, id) <= Places(o.drains, id)
  {
    if Enabled(o, s) {
      if s.Take? || s.Succeed? || s.Fail? || s.Break? {
        WorkerProgress(o.drains[s.d], s.w, id);
        PlacesUpdate(o.drains, s.d, Exec(cfg, o, s).drains[s.d], id);
      } else if s.EndDrain? {
        PlacesAt(o.drains, s.d, id);
        PlacesSplit(o.drains[..s.d], o.drains[s.d + 1..], id);
      }
    }
  }

  ghost predicate AlwaysOnce(cfg: Config, o: Outbox, steps: seq<Step>)
    decreases |steps|
  {
    AtMostOnce(o) && (steps == [] || AlwaysOnce(cfg, Exec(cfg, o, steps[0]), steps[1..]))
  }

  ghost predicate AlwaysClean(cfg: Config, o: Outbox, steps: seq<Step>)
    decreases |steps|
  {
    steps == [] || (Clean(cfg, o, steps[0]) && AlwaysClean(cfg, Exec(cfg, o, steps[0]), steps[1..]))
  }

  /**
   * Over any schedule, failed writes included, no row is ever in progress twice exactly when no tick
   * polls a row that is still in progress.
   */
  lemma {:induction false} OnceExactlyWhenClean(cfg: Config, o: Outbox, steps: seq<Step>)
    requires AtMostOnce(o)
    ensures AlwaysOnce(cfg, o, steps) <==> AlwaysClean(cfg, o, steps)
    decreases |steps|
  {
    if steps != [] {
      var s := steps[0];
      if s.Tick? {
        TickExactly(cfg, o, s.now);
      } else {
        forall id ensures Places(Exec(cfg, o, s).drains, id) <= 1 {
          OtherSteps(cfg, o, s, id);
        }
      }
      if AtMostOnce(Exec(cfg, o, s)) {
        OnceExactlyWhenClean(cfg, Exec(cfg, o, s), steps[1..]);
      }
    }
  }

  // ----- what clean schedules keep -----

  ghost predicate JobFits(cfg: Config, rows: seq<Email>, job: Job) {
    job.id < |rows| && job.attempts < cfg.maxAttempts && rows[job.id].status != Sent
  }

  /** Rows still to be finished are not sent and have attempts left. */
  ghost predicate Fits(cfg: Config, rows: seq<Email>, drain: Drain) {
    && (forall w :: 0 <= w < |drain.workers| && drain.workers[w].Holding? ==>
          JobFits(cfg, rows, drain.workers[w].job))
    && (!AllGone(drain.workers) ==> forall k :: 0 <= k < |drain.queue| ==> JobFits(cfg, rows, drain.queue[k]))
  }

  ghost predicate PendingHaveAttempts(cfg: Config, rows: seq<Email>) {
    forall id :: 0 <= id < |rows| && rows[id].status == Pending ==> rows[id].attempts < cfg.maxAttempts
  }

  /** Over every schedule, failed writes and rows held twice included, a pending row has attempts left. */
  lemma {:induction false} PendingAlwaysHaveAttempts(cfg: Config, o: Outbox, steps: seq<Step>)
    requires cfg.maxAttempts >= 1 && PendingHaveAttempts(cfg, o.rows)
    ensures PendingHaveAttempts(cfg, Run(cfg, o, steps).rows)
    decreases |steps|
  {
    if steps != [] {
      PendingAlwaysHaveAttempts(cfg, Exec(cfg, o, steps[0]), steps[1..]);
    }
  }

  /** Every row in one place at most, pending rows with attempts left, and no sent row still to be run. */
  ghost predicate Sound(cfg: Config, o: Outbox) {
    && AtMostOnce(o) && PendingHaveAttempts(cfg, o.rows)
    && forall d :: 0 <= d < |o.drains| ==> Fits(cfg, o.rows, o.drains[d])
  }

  /** Rows that become sent elsewhere do not disturb a drain. */
  lemma FitsStay(cfg: Config, rows: seq<Email>, after: seq<Email>, drain: Drain)
    requires Fits(cfg, rows, drain) && |rows| <= |after|
    requires forall id ::
               0 <= id < |rows| && after[id].status == Sent && rows[id].status != Sent ==> InProgress(drain, id) == 0
    ensures Fits(cfg, after, drain)
  {
    forall w | 0 <= w < |drain.workers| && drain.workers[w].Holding? ensures JobFits(cfg, after, drain.workers[w].job) {
      assert JobFits(cfg, rows, drain.workers[w].job);
      HeldByOne(drain.workers, w);
      StaffedBy(drain.workers, w);
    }
    forall k | !AllGone(drain.workers) && 0 <= k < |drain.queue| ensures JobFits(cfg, after, drain.queue[k]) {
      assert JobFits(cfg, rows, drain.queue[k]);
      QueuedForOne(drain.queue, k);
    }
  }

  lemma FinishSound(cfg: Config, o: Outbox, d: nat, w: nat, row: Email)
    requires Sound(cfg, o) && Holds(o, d, w)
    ensures var after := FinishStep(o, d, w, row);
      forall e :: 0 <= e < |o.drains| ==> Fits(cfg, after.rows, after.drains[e])
  {
    var id, after := o.drains[d].workers[w].job.id, FinishStep(o, d, w, row);
    HolderHasPlace(o, d, w);
    assert Places(o.drains, id) <= 1;
    forall e | 0 <= e < |o.drains| ensures Fits(cfg, after.rows, after.drains[e]) {
      assert Fits(cfg, o.rows, o.drains[e]);
      if e == d {
        PlacesAt(o.drains, d, id);
        WorkerProgress(o.drains[d], w, id);
        StaffedBy(o.drains[d].workers, w);
        assert Fits(cfg, o.rows, after.drains[d]);
      } else if InProgress(o.drains[e], id) > 0 {
        TwoDrains(o.drains, if d < e then d else e, if d < e then e else d, id);
        assert false;
      }
      FitsStay(cfg, o.rows, after.rows, after.drains[e]);
    }
  }

  lemma TickSound(cfg: Config, o: Outbox, now: int)
    requires Sound(cfg, o)
    ensures var after := TickStep(cfg, o, now);
      forall d :: 0 <= d < |after.drains| ==> Fits(cfg, after.rows, after.drains[d])
  {
    var jobs := Poll(cfg, o.rows, now);
    DueJobsFit(o.rows, 0, now);
    IdleHoldNothing(if cfg.concurrency <= |jobs| then cfg.concurrency else |jobs|, 0);
  }

  lemma TakeSound(cfg: Config, o: Outbox, d: nat, w: nat)
    requires Sound(cfg, o) && Enabled(o, Take(d, w))
    ensures var after := TakeStep(o, d, w);
      forall e :: 0 <= e < |after.drains| ==> Fits(cfg, after.rows, after.drains[e])
  {
    assert Fits(cfg, o.rows, o.drains[d]);
    StaffedBy(o.drains[d].workers, w);
    if o.drains[d].queue != [] {
      assert JobFits(cfg, o.rows, o.drains[d].queue[0]);
    }
    assert Fits(cfg, o.rows, TakeStep(o, d, w).drains[d]);
  }

  /** Steps that give no drain more to run and send no row. */
  lemma QuietSound(cfg: Config, o: Outbox, s: Step)
    requires Sound(cfg, o) && Enabled(o, s)
    requires s.Enqueue? || s.AdminCheck? || s.AdminWrite? || s.Break? || s.EndDrain?
    ensures var after := Exec(cfg, o, s);
      forall d :: 0 <= d < |after.drains| ==> Fits(cfg, after.rows, after.drains[d])
  {
    var after := Exec(cfg, o, s);
    if s.Break? {
      StaffedBy(o.drains[s.d].workers, s.w);
    }
    forall d | 0 <= d < |after.drains| ensures Fits(cfg, after.rows, after.drains[d]) {
      var e := if s.EndDrain? && d >= s.d then d + 1 else d;
      assert Fits(cfg, o.rows, o.drains[e]);
      assert Fits(cfg, o.rows, after.drains[d]);
      FitsStay(cfg, o.rows, after.rows, after.drains[d]);
    }
  }

  /** A clean step keeps the outbox sound, even when it is a failed write. */
  lemma CleanKeeps(cfg: Config, o: Outbox, s: Step)
    requires cfg.maxAttempts >= 1 && Sound(cfg, o) && Clean(cfg, o, s)
    ensures Sound(cfg, Exec(cfg, o, s))
  {
    OnceExactlyWhenClean(cfg, o, [s]);
    assert [s][1..] == [];
    if Enabled(o, s) {
      match s {
        case Tick(now) => TickSound(cfg, o, now);
        case Take(d, w) => TakeSound(cfg, o, d, w);
        case Succeed(d, w) =>
          assert Fits(cfg, o.rows, o.drains[d]);
          FinishSound(cfg, o, d, w, o.rows[o.drains[d].workers[w].job.id].(status := Sent));
        case Fail(d, w, now) =>
          assert Fits(cfg, o.rows, o.drains[d]);
          FinishSound(cfg, o, d, w, AfterFailure(cfg, o.drains[d].workers[w].job, now));
        case _ => QuietSound(cfg, o, s);
      }
    }
  }

  /**
   * Over any schedule whose ticks poll no row in progress, failed writes included: a row has at most one
   * holder, a pending row has attempts left, and no sent row is still to be run.
   */
  lemma {:induction false} CleanSchedules(cfg: Config, o: Outbox, steps: seq<Step>)
    requires cfg.maxAttempts >= 1 && Sound(cfg, o) && AlwaysClean(cfg, o, steps)
    ensures var after := Run(cfg, o, steps);
      Sound(cfg, after) && SingleHolder(after) && PendingHaveAttempts(cfg, after.rows)
    decreases |steps|
  {
    if steps == [] {
      OnceMeansSingleHolder(o);
    } else {
      CleanKeeps(cfg, o, steps[0]);
      CleanSchedules(cfg, Exec(cfg, o, steps[0]), steps[1..]);
    }
  }

  // ----- one row at a time -----

  /** At most one worker to a drain. */
  predicate OneAtATime(cfg: Config) {
    cfg.concurrency <= 1 || cfg.batchSize <= 1
  }

  /** A drain that has lost nothing is the last one, and the flag tells of it; the others have no worker left. */
  ghost predicate Lone(o: Outbox) {
    forall d :: 0 <= d < |o.drains| ==>
      && |o.drains[d].workers| <= 1
      && if o.drains[d].lost == [] then o.draining && d == |o.drains| - 1 else AllGone(o.drains[d].workers)
  }

  lemma LoneStays(cfg: Config, o: Outbox, s: Step)
    requires OneAtATime(cfg) && Lone(o)
    ensures Lone(Exec(cfg, o, s))
  {
    if s.Tick? {
      var jobs := Poll(cfg, o.rows, s.now);
      IdleHoldNothing(if cfg.concurrency <= |jobs| then cfg.concurrency else |jobs|, 0);
    } else if Enabled(o, s) && (s.Take? || s.Succeed? || s.Fail? || s.Break?) {
      StaffedBy(o.drains[s.d].workers, s.w);
    }
  }

  lemma {:induction false} RunsLone(cfg: Config, o: Outbox, steps: seq<Step>)
    requires OneAtATime(cfg) && Lone(o)
    ensures Lone(Run(cfg, o, steps)) && AlwaysClean(cfg, o, steps)
    decreases |steps|
  {
    if steps != [] {
      if !o.draining {
        forall id ensures Places(o.drains, id) == 0 {
          NothingInProgress(o.drains, id);
        }
      }
      LoneStays(cfg, o, steps[0]);
      RunsLone(cfg, Exec(cfg, o, steps[0]), steps[1..]);
    }
  }

  lemma {:induction false} NothingInProgress(drains: seq<Drain>, id: Id)
    requires forall d :: 0 <= d < |drains| ==> AllGone(drains[d].workers)
    ensures Places(drains, id) == 0
  {
    if drains != [] {
      NothingInProgress(drains[1..], id);
    }
  }

  lemma LoneHolder(o: Outbox)
    requires Lone(o)
    ensures SingleHolder(o)
  {
    forall d: nat, w: nat, e: nat, v: nat ensures !TwoHolders(o, d, w, e, v) {
      if TwoHolders(o, d, w, e, v) {
        StaffedBy(o.drains[d].workers, w);
        StaffedBy(o.drains[e].workers, v);
      }
    }
  }

  // ----- schedules without failed writes -----

  /** Every worker manages to write its result. */
  predicate Writes(s: Step) {
    !s.Break?
  }

  ghost predicate AllWrite(steps: seq<Step>) {
    forall k :: 0 <= k < |steps| ==> Writes(steps[k])
  }

  predicate Sensible(cfg: Config) {
    cfg.maxAttempts >= 1 && cfg.concurrency >= 1
  }

  /** At most one drain runs, the one the flag tells of, and none of its workers lost a row. */
  ghost predicate Flagged(o: Outbox) {
    if o.draining then |o.drains| == 1 && o.drains[0].lost == [] && o.drains[0].workers != [] else o.drains == []
  }

  ghost predicate Inv(cfg: Config, o: Outbox) {
    Flagged(o) && AllSettled(o) && Sound(cfg, o)
  }

  lemma FlagStays(cfg: Config, o: Outbox, s: Step)
    requires Sensible(cfg) && Flagged(o) && Writes(s)
    ensures Flagged(Exec(cfg, o, s))
  {
    if s.Tick? && !o.draining {
      var jobs := Poll(cfg, o.rows, s.now);
      IdleHoldNothing(if cfg.concurrency <= |jobs| then cfg.concurrency else |jobs|, 0);
    }
  }

  lemma StepKeeps(cfg: Config, o: Outbox, s: Step)
    requires Sensible(cfg) && Inv(cfg, o) && Writes(s)
    ensures Inv(cfg, Exec(cfg, o, s))
  {
    FlagStays(cfg, o, s);
    StepSettles(cfg, o, s);
    CleanKeeps(cfg, o, s);
  }

  lemma {:induction false} RunKeeps(cfg: Config, o: Outbox, steps: seq<Step>)
    requires Sensible(cfg) && Inv(cfg, o) && AllWrite(steps)
    ensures Inv(cfg, Run(cfg, o, steps))
    decreases |steps|
  {
    if steps != [] {
      StepKeeps(cfg, o, steps[0]);
      RunKeeps(cfg, Exec(cfg, o, steps[0]), steps[1..]);
    }
  }

  /** Without failed writes every tick is clean: the flag is set as long as any row is in progress. */
  lemma {:induction false} WrittenMeansClean(cfg: Config, o: Outbox, steps: seq<Step>)
    requires Sensible(cfg) && Flagged(o) && AllWrite(steps)
    ensures AlwaysClean(cfg, o, steps)
    decreases |steps|
  {
    if steps != [] {
      FlagStays(cfg, o, steps[0]);
      WrittenMeansClean(cfg, Exec(cfg, o, steps[0]), steps[1..]);
    }
  }

  /**
   * For every schedule of ticks, workers, retries and cancels: a row is held by at most one worker, and
   * a pending row has attempts left.
   */
  lemma Schedules(cfg: Config, steps: seq<Step>)
    requires Sensible(cfg) && AllWrite(steps)
    ensures var o := Run(cfg, START, steps); Inv(cfg, o) && SingleHolder(o) && PendingHaveAttempts(cfg, o.rows)
  {
    RunKeeps(cfg, START, steps);
    OnceMeansSingleHolder(Run(cfg, START, steps));
  }

  /** When a drain ends, each row of its batch has been run exactly once, and no other row at all. */
  lemma BatchRunOnce(cfg: Config, o: Outbox, d: nat, id: Id)
    requires Inv(cfg, o) && Enabled(o, EndDrain(d))
    ensures Times(o.drains[d].done, id) == Times(o.drains[d].batch, id) <= 1
  {
    assert Settled(o.drains[d]);
    GoneHoldNothing(o.drains[d].workers, id);
    AllAreGone(o.drains[d].workers);
  }
}
