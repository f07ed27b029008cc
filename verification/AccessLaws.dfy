/** When an event is registered, and what voiding one leaves. */
module AccessLaws {
  import opened Common
  import opened AccessLog

  /** The request names the employee, scanned, typed in, or both the same. */
  predicate Names(i: EventInput, employee: Id) {
    && (i.qr.Some? || i.employee.Some?)
    && (i.qr.Some? ==> i.qr.value == Ok(employee))
    && (i.employee.Some? ==> i.employee.value == employee)
  }

  predicate ActiveIn(known: map<Id, bool>, id: Id) {
    id in known && known[id]
  }

  /** The employee's live events end with an entry. */
  predicate InsideNow(log: seq<Event>, employee: Id) {
    var live := Live(log, employee);
    live != [] && live[|live| - 1].kind == Entry
  }

  /** A live event of the employee, of the same kind, lies in the window before `now`. */
  ghost predicate Repeated(log: seq<Event>, employee: Id, kind: EventKind, now: int, windowSeconds: nat) {
    exists k ::
      && 0 <= k < |log| && log[k].employee == employee && log[k].kind == kind && !log[k].voided
      && log[k].at >= now - windowSeconds * 1000
  }

  ghost predicate Accepts(log: seq<Event>, i: EventInput, ctx: EventContext, now: int, employee: Id) {
    && Names(i, employee) && ActiveIn(ctx.employees, employee) && ActiveIn(ctx.sites, i.site)
    && !Repeated(log, employee, i.kind, now, ctx.windowSeconds)
    && (i.kind == Exit <==> InsideNow(log, employee))
    && i.clockValid
  }

  lemma {:induction false} KeyFound(log: seq<Event>, key: Id)
    ensures match ByClientId(log, key)
      case Some(k) => k < |log| && log[k].clientEventId == key
      case None => forall k :: 0 <= k < |log| ==> log[k].clientEventId != key
  {
    if log != [] {
      KeyFound(log[..|log| - 1], key);
    }
  }

  /**
   * A request whose key is new is accepted exactly when it names one active employee at an active site, repeats no
   * event within the window, is an exit exactly when the employee is inside, and has a valid time. It appends that
   * event at the server's time.
   */
  lemma RegistersExactly(log: seq<Event>, i: EventInput, ctx: EventContext, now: int)
    requires forall k :: 0 <= k < |log| ==> log[k].clientEventId != i.clientEventId
    ensures var r := CreateEvent(log, i, ctx, now);
      && (r.Ok? <==> exists employee: Id :: Accepts(log, i, ctx, now, employee))
      && (r.Ok? ==> exists employee: Id ::
            && Accepts(log, i, ctx, now, employee)
            && r.value == Registered(log + [Event(employee, i.kind, now, false, i.clientEventId)], |log|, true))
  {
    KeyFound(log, i.clientEventId);
    forall employee: Id | Names(i, employee) ensures EmployeeOf(i) == Ok(employee) {
    }
    if EmployeeOf(i).Ok? {
      var employee := EmployeeOf(i).value;
      LastKindIsLive(log, employee);
      SameWindow(log, employee, i.kind, now, ctx.windowSeconds);
      assert Names(i, employee);
      assert CreateEvent(log, i, ctx, now).Ok? <==> Accepts(log, i, ctx, now, employee);
    }
  }

  lemma SameWindow(log: seq<Event>, employee: Id, kind: EventKind, now: int, windowSeconds: nat)
    ensures HasDuplicate(log, employee, kind, now - windowSeconds * 1000)
       <==> Repeated(log, employee, kind, now, windowSeconds)
  {
    var from := now - windowSeconds * 1000;
    if Repeated(log, employee, kind, now, windowSeconds) {
      var k :| 0 <= k < |log| && log[k].employee == employee && log[k].kind == kind && !log[k].voided
        && log[k].at >= from;
      assert IsDuplicate(log[k], employee, kind, from);
    }
  }

  /** Voiding takes one event out of its employee's live events, and no other. */
  lemma VoidsExactly(log: seq<Event>, id: Id, employee: Id)
    ensures VoidEvent(log, id).Ok? <==> id < |log|
    ensures id < |log| ==>
              && |VoidEvent(log, id).value| == |log|
              && Live(VoidEvent(log, id).value, employee)
                 == if log[id].employee == employee then Live(log[..id], employee) + Live(log[id + 1..], employee)
                    else Live(log, employee)
  {
    if id < |log| {
      var gone := log[id].(voided := true);
      var before, rest := log[..id], log[id + 1..];
      assert log == before + ([log[id]] + rest) && log[id := gone] == before + ([gone] + rest);
      LiveSplit(before, [log[id]] + rest, employee);
      LiveSplit(before, [gone] + rest, employee);
      assert ([log[id]] + rest)[1..] == rest && ([gone] + rest)[1..] == rest;
    }
  }
}
