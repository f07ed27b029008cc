/** The entry/exit log: events are appended in sequence and voided in place. */
module AccessLog {
  import opened Common

  datatype EventKind = Entry | Exit

  /** `at` is the server's time in milliseconds. */
  datatype Event = Event(employee: Id, kind: EventKind, at: int, voided: bool, clientEventId: Id)

  /**
   * A request to register an event: the client's key, the code scanned, as what reading it gives, and the
   * employee typed in. `clockValid` is false for a device time that is no date.
   */
  datatype EventInput = EventInput(
    clientEventId: Id, kind: EventKind, qr: Option<Result<Id>>, employee: Option<Id>, site: Id, clockValid: bool)

  /** The employees and sites known, and whether they are active; and the duplicate window in seconds. */
  datatype EventContext = EventContext(employees: map<Id, bool>, sites: map<Id, bool>, windowSeconds: nat)

  datatype Registered = Registered(log: seq<Event>, id: Id, created: bool)

  function ByClientId(log: seq<Event>, clientEventId: Id): Option<Id> {
    if log == [] then None
    else if log[|log| - 1].clientEventId == clientEventId then Some(|log| - 1)
    else ByClientId(log[..|log| - 1], clientEventId)
  }

  predicate IsDuplicate(e: Event, employee: Id, kind: EventKind, from: int) {
    e.employee == employee && e.kind == kind && !e.voided && e.at >= from
  }

  predicate HasDuplicate(log: seq<Event>, employee: Id, kind: EventKind, from: int) {
    exists i :: 0 <= i < |log| && IsDuplicate(log[i], employee, kind, from)
  }

  /** The kind of the employee's latest event that is not voided; events are in time order. */
  function LastKind(log: seq<Event>, employee: Id): Option<EventKind> {
    if log == [] then None
    else
      var last := log[|log| - 1];
      if last.employee == employee && !last.voided then Some(last.kind) else LastKind(log[..|log| - 1], employee)
  }

  /** The sequence rule: an entry may not follow an entry, and an exit must follow one. */
  function SequenceError(last: Option<EventKind>, kind: EventKind): Option<Error> {
    if kind == Entry && last == Some(Entry) then Some(EntryAlreadyOpen)
    else if kind == Exit && last != Some(Entry) then Some(ExitWithoutEntry)
    else None
  }

  /** Whose event it is: the scanned employee's, who must be the one typed in if there is one. */
  function EmployeeOf(i: EventInput): Result<Id> {
    match i.qr
    case Some(scan) =>
      var scanned :- scan;
      if i.employee.Some? && i.employee.value != scanned then Err(EmployeeMismatch) else Ok(scanned)
    case None => if i.employee.Some? then Ok(i.employee.value) else Err(QrOrEmployeeRequired)
  }

  /** The checks before the log is looked at: the employee and the site must exist and be active. */
  function Registrant(i: EventInput, ctx: EventContext): Result<Id> {
    var employee :- EmployeeOf(i);
    if employee !in ctx.employees then Err(EmployeeNotFound)
    else if !ctx.employees[employee] then Err(EmployeeInactive)
    else if i.site !in ctx.sites then Err(SiteNotFound)
    else if !ctx.sites[i.site] then Err(SiteInactive)
    else Ok(employee)
  }

  function CreateEvent(log: seq<Event>, i: EventInput, ctx: EventContext, now: int): Result<Registered> {
    var existing := ByClientId(log, i.clientEventId);
    if existing.Some? then Ok(Registered(log, existing.value, false))
    else
      var employee :- Registrant(i, ctx);
      var out := SequenceError(LastKind(log, employee), i.kind);
      if HasDuplicate(log, employee, i.kind, now - ctx.windowSeconds * 1000) then Err(DuplicateAccessEvent)
      else if out.Some? then Err(out.value)
      else if !i.clockValid then Err(InvalidDeviceTimestamp)
      else Ok(Registered(log + [Event(employee, i.kind, now, false, i.clientEventId)], |log|, true))
  }

  function VoidEvent(log: seq<Event>, id: Id): Result<seq<Event>> {
    if id >= |log| then Err(AccessEventNotFound) else Ok(log[id := log[id].(voided := true)])
  }

  datatype LogOp =
    | Register(input: EventInput, ctx: EventContext)
    | Void(id: Id)

  datatype LogCall = LogCall(at: int, op: LogOp)

  function ExecLog(log: seq<Event>, c: LogCall): seq<Event> {
    match c.op
    case Register(input, ctx) => (
      match CreateEvent(log, input, ctx, c.at)
      case Ok(r) => r.log
      case Err(_) => log)
    case Void(id) => (
      match VoidEvent(log, id)
      case Ok(after) => after
      case Err(_) => log)
  }

  function RunLog(log: seq<Event>, calls: seq<LogCall>): seq<Event>
    decreases |calls|
  {
    if calls == [] then log else RunLog(ExecLog(log, calls[0]), calls[1..])
  }

  ghost predicate ClockRuns(clock: int, calls: seq<LogCall>)
    decreases |calls|
  {
    calls == [] || (clock < calls[0].at && ClockRuns(calls[0].at, calls[1..]))
  }

  // ----- one employee's live events -----

  /** The employee's events that are not voided, in order. */
  function Live(log: seq<Event>, employee: Id): seq<Event> {
    if log == [] then []
    else if log[0].employee == employee && !log[0].voided then [log[0]] + Live(log[1..], employee)
    else Live(log[1..], employee)
  }

  function VoidedCount(log: seq<Event>, employee: Id): nat {
    if log == [] then 0
    else (if log[0].employee == employee && log[0].voided then 1 else 0) + VoidedCount(log[1..], employee)
  }

  /** How many events have the kind of the event before them; the first is compared with `before`. */
  function Repeats(before: EventKind, events: seq<Event>): nat
    decreases |events|
  {
    if events == [] then 0
    else (if events[0].kind == before then 1 else 0) + Repeats(events[0].kind, events[1..])
  }

  function LastOf(before: EventKind, events: seq<Event>): EventKind {
    if events == [] then before else events[|events| - 1].kind
  }

  lemma {:induction false} VoidedSplit(a: seq<Event>, b: seq<Event>, employee: Id)
    ensures VoidedCount(a + b, employee) == VoidedCount(a, employee) + VoidedCount(b, employee)
  {
    if a == [] {
      assert a + b == b;
    } else {
      VoidedSplit(a[1..], b, employee);
      assert (a + b)[1..] == a[1..] + b;
    }
  }

  lemma {:induction false} LiveSplit(a: seq<Event>, b: seq<Event>, employee: Id)
    ensures Live(a + b, employee) == Live(a, employee) + Live(b, employee)
  {
    if a == [] {
      assert a + b == b;
    } else {
      LiveSplit(a[1..], b, employee);
      assert (a + b)[0] == a[0] && (a + b)[1..] == a[1..] + b;
      assert [a[0]] + (Live(a[1..], employee) + Live(b, employee))
          == ([a[0]] + Live(a[1..], employee)) + Live(b, employee);
    }
  }

  lemma {:induction false} RepeatsSplit(before: EventKind, a: seq<Event>, b: seq<Event>)
    ensures Repeats(before, a + b) == Repeats(before, a) + Repeats(LastOf(before, a), b)
    decreases |a|
  {
    if a == [] {
      assert a + b == b;
    } else {
      RepeatsSplit(a[0].kind, a[1..], b);
      assert (a + b)[1..] == a[1..] + b;
    }
  }

  lemma {:induction false} LastKindIsLive(log: seq<Event>, employee: Id)
    ensures LastKind(log, employee)
         == if Live(log, employee) == [] then None else Some(LastOf(Exit, Live(log, employee)))
  {
    if log != [] {
      var n := |log| - 1;
      LastKindIsLive(log[..n], employee);
      LiveSplit(log[..n], [log[n]], employee);
      assert log == log[..n] + [log[n]];
      assert [log[n]][1..] == [];
    }
  }

  /** Registering never repeats a kind: the live events of everyone else stay, and the new one alternates. */
  lemma RegisterAlternates(log: seq<Event>, e: Event, employee: Id)
    requires !e.voided && SequenceError(LastKind(log, e.employee), e.kind).None?
    ensures Repeats(Exit, Live(log + [e], employee)) == Repeats(Exit, Live(log, employee))
    ensures VoidedCount(log + [e], employee) == VoidedCount(log, employee)
  {
    LiveSplit(log, [e], employee);
    VoidedSplit(log, [e], employee);
    assert [e][1..] == [];
    LastKindIsLive(log, employee);
    RepeatsSplit(Exit, Live(log, employee), Live([e], employee));
  }

  /** Voiding one event creates at most one repetition. */
  lemma VoidRepeatsOnce(log: seq<Event>, id: Id, employee: Id)
    requires id < |log|
    ensures var after := log[id := log[id].(voided := true)];
      Repeats(Exit, Live(after, employee)) - VoidedCount(after, employee)
      <= Repeats(Exit, Live(log, employee)) - VoidedCount(log, employee)
  {
    var e := log[id];
    var gone := e.(voided := true);
    var before, rest := log[..id], log[id + 1..];
    assert log == before + ([e] + rest) && log[id := gone] == before + ([gone] + rest);
    LiveSplit(before, [e] + rest, employee);
    LiveSplit(before, [gone] + rest, employee);
    VoidedSplit(before, [e] + rest, employee);
    VoidedSplit(before, [gone] + rest, employee);
    assert ([e] + rest)[1..] == rest && ([gone] + rest)[1..] == rest;
    var a, b := Live(before, employee), Live(rest, employee);
    RepeatsSplit(Exit, a, Live([e] + rest, employee));
    RepeatsSplit(Exit, a, Live([gone] + rest, employee));
    assert ([e] + b)[1..] == b;
    assert Live([gone] + rest, employee) == b;
  }

  ghost predicate RepeatsBounded(log: seq<Event>) {
    forall employee :: Repeats(Exit, Live(log, employee)) <= VoidedCount(log, employee)
  }

  lemma ExecLogKeeps(log: seq<Event>, c: LogCall)
    requires RepeatsBounded(log)
    ensures RepeatsBounded(ExecLog(log, c))
  {
    forall employee
      ensures Repeats(Exit, Live(ExecLog(log, c), employee)) <= VoidedCount(ExecLog(log, c), employee)
    {
      match c.op {
        case Register(i, ctx) =>
          if CreateEvent(log, i, ctx, c.at).Ok? && ByClientId(log, i.clientEventId).None? {
            RegisterAlternates(log, Event(Registrant(i, ctx).value, i.kind, c.at, false, i.clientEventId), employee);
          }
        case Void(id) =>
          if id < |log| {
            VoidRepeatsOnce(log, id, employee);
          }
      }
    }
  }

  /** Over any run an employee's live log repeats a kind at most as often as events were voided. */
  lemma {:induction false} RunLogKeeps(log: seq<Event>, calls: seq<LogCall>)
    requires RepeatsBounded(log)
    ensures RepeatsBounded(RunLog(log, calls))
    decreases |calls|
  {
    if calls != [] {
      ExecLogKeeps(log, calls[0]);
      RunLogKeeps(ExecLog(log, calls[0]), calls[1..]);
    }
  }

  /** In time order: later events later. */
  ghost predicate TimeOrdered(log: seq<Event>, clock: int) {
    && (forall i, j :: 0 <= i < j < |log| ==> log[i].at < log[j].at)
    && (forall i :: 0 <= i < |log| ==> log[i].at <= clock)
  }

  lemma {:induction false} RunLogOrdered(log: seq<Event>, clock: int, calls: seq<LogCall>)
    requires TimeOrdered(log, clock) && ClockRuns(clock, calls)
    ensures TimeOrdered(RunLog(log, calls), if calls == [] then clock else calls[|calls| - 1].at)
    decreases |calls|
  {
    if calls != [] {
      assert TimeOrdered(ExecLog(log, calls[0]), calls[0].at);
      RunLogOrdered(ExecLog(log, calls[0]), calls[0].at, calls[1..]);
    }
  }

  lemma {:induction false} LiveIsLive(log: seq<Event>, employee: Id, i: nat) returns (j: nat)
    requires i < |Live(log, employee)|
    ensures j < |log| && Live(log, employee)[i] == log[j]
    ensures forall k :: i < k < |Live(log, employee)| ==> Live(log, employee)[k] in log[j + 1..]
  {
    if log[0].employee == employee && !log[0].voided {
      if i == 0 {
        j := 0;
        forall k | 0 < k < |Live(log, employee)| ensures Live(log, employee)[k] in log[1..] {
          var m := LiveIsLive(log[1..], employee, k - 1);
        }
      } else {
        var m := LiveIsLive(log[1..], employee, i - 1);
        j := m + 1;
        assert log[1..][m + 1..] == log[j + 1..];
      }
    } else {
      var m := LiveIsLive(log[1..], employee, i);
      j := m + 1;
      assert log[1..][m + 1..] == log[j + 1..];
    }
  }

  lemma LiveOrdered(log: seq<Event>, clock: int, employee: Id)
    requires TimeOrdered(log, clock)
    ensures TimeOrdered(Live(log, employee), clock)
  {
    var live := Live(log, employee);
    forall i | 0 <= i < |live| ensures live[i].at <= clock {
      var j := LiveIsLive(log, employee, i);
    }
    forall i, k | 0 <= i < k < |live| ensures live[i].at < live[k].at {
      var j := LiveIsLive(log, employee, i);
      assert live[k] in log[j + 1..];
    }
  }

  // ----- idempotency -----

  lemma {:induction false} VoidKeepsClientIds(log: seq<Event>, id: Id, clientEventId: Id)
    requires id < |log|
    ensures ByClientId(log[id := log[id].(voided := true)], clientEventId) == ByClientId(log, clientEventId)
  {
    var n := |log| - 1;
    if id < n {
      VoidKeepsClientIds(log[..n], id, clientEventId);
      assert log[id := log[id].(voided := true)][..n] == log[..n][id := log[id].(voided := true)];
    } else {
      assert log[id := log[id].(voided := true)][..n] == log[..n];
    }
  }

  lemma {:induction false} ClientIdStays(log: seq<Event>, clientEventId: Id, calls: seq<LogCall>)
    requires ByClientId(log, clientEventId).Some?
    ensures ByClientId(RunLog(log, calls), clientEventId) == ByClientId(log, clientEventId)
    decreases |calls|
  {
    if calls != [] {
      var c := calls[0];
      if c.op.Void? && c.op.id < |log| {
        VoidKeepsClientIds(log, c.op.id, clientEventId);
      } else if ExecLog(log, c) != log {
        assert ExecLog(log, c)[..|log|] == log;
      }
      ClientIdStays(ExecLog(log, c), clientEventId, calls[1..]);
    }
  }

  /**
   * An event is registered once for its client key: after any run, voiding it included, the same key
   * answers with the same event, adds nothing and is never refused, whatever the request says.
   */
  lemma ClientKeyRegistersOnce(log: seq<Event>, i: EventInput, ctx: EventContext, now: int, calls: seq<LogCall>,
                               i': EventInput, ctx': EventContext, now': int)
    requires CreateEvent(log, i, ctx, now).Ok? && i'.clientEventId == i.clientEventId
    ensures var first := CreateEvent(log, i, ctx, now).value;
      var later := RunLog(first.log, calls);
      CreateEvent(later, i', ctx', now') == Ok(Registered(later, first.id, false))
  {
    var first := CreateEvent(log, i, ctx, now).value;
    assert ByClientId(first.log, i.clientEventId) == Some(first.id);
    ClientIdStays(first.log, i.clientEventId, calls);
  }

  // ----- the log as the service updates it -----

  class AccessService {
    var log: seq<Event>

    constructor ()
      ensures log == []
    {
      log := [];
    }

    /** Registers an event through the idempotency, duplicate and sequence layers. */
    method Create(i: EventInput, ctx: EventContext, now: int) returns (r: Result<(Id, bool)>)
      modifies this
      ensures match CreateEvent(old(log), i, ctx, now)
        case Ok(done) => r == Ok((done.id, done.created)) && log == done.log
        case Err(e) => r == Err(e) && log == old(log)
    {
      var existing := ByClientId(log, i.clientEventId);
      if existing.Some? {
        return Ok((existing.value, false));
      }
      var registrant := Registrant(i, ctx);
      if registrant.Err? {
        return Err(registrant.error);
      }
      var employee, kind := registrant.value, i.kind;
      var from := now - ctx.windowSeconds * 1000;
      for k := 0 to |log|
        invariant forall j :: 0 <= j < k ==> !IsDuplicate(log[j], employee, kind, from)
      {
        if IsDuplicate(log[k], employee, kind, from) {
          return Err(DuplicateAccessEvent);
        }
      }
      var k := |log|;
      assert log[..k] == log;
      while k > 0 && !(log[k - 1].employee == employee && !log[k - 1].voided)
        invariant 0 <= k <= |log|
        invariant LastKind(log, employee) == LastKind(log[..k], employee)
      {
        assert log[..k][..k - 1] == log[..k - 1];
        k := k - 1;
      }
      var last := if k > 0 then Some(log[k - 1].kind) else None;
      if kind == Entry && last == Some(Entry) {
        return Err(EntryAlreadyOpen);
      }
      if kind == Exit && last != Some(Entry) {
        return Err(ExitWithoutEntry);
      }
      if !i.clockValid {
        return Err(InvalidDeviceTimestamp);
      }
      r := Ok((|log|, true));
      log := log + [Event(employee, kind, now, false, i.clientEventId)];
    }

    /** Voids an event; answers whether it already was. */
    method VoidOne(id: Id) returns (r: Result<bool>)
      modifies this
      ensures match VoidEvent(old(log), id)
        case Ok(after) => r == Ok(old(log)[id].voided) && log == after
        case Err(e) => r == Err(e) && log == old(log)
    {
      if id >= |log| {
        return Err(AccessEventNotFound);
      }
      if log[id].voided {
        assert log[id] == log[id].(voided := true);
        assert log == log[id := log[id].(voided := true)];
        return Ok(true);
      }
      log := log[id := log[id].(voided := true)];
      r := Ok(false);
    }
  }
}
