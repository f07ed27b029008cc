/**
 * The access report: an employee's events are paired into sessions, one open entry at a time, over a
 * slice of the log wider than the reported period.
 */
module AccessReport {
  import opened Common
  import opened AccessLog

  datatype Incident = EntryWithoutExit | ExitWithoutEntryIncident | OpenEntry

  /** `crossesMidnight` compares local dates, so it depends on the zone's date of an instant. */
  datatype Session = Session(
    entryAt: Option<int>, exitAt: Option<int>, workedMinutes: int, incident: Option<Incident>, crossesMidnight: bool)

  /** The period [start, end), the current time, and the local date of an instant in the report's zone. */
  datatype Range = Range(start: int, end: int, now: int, localDate: int -> int)

  const MS_PER_MINUTE := 60 * 1000
  const MS_PER_DAY := 24 * 60 * 60 * 1000
  const LOOKBACK_DAYS := 7

  /** Minutes between two instants, halves rounded up. */
  function RoundedMinutes(ms: int): int {
    (ms + MS_PER_MINUTE / 2) / MS_PER_MINUTE
  }

  function MakeSession(entryAt: Option<int>, exitAt: Option<int>, incident: Option<Incident>, range: Range): Session {
    var both := entryAt.Some? && exitAt.Some?;
    Session(entryAt, exitAt, if both then RoundedMinutes(exitAt.value - entryAt.value) else 0, incident,
            both && range.localDate(entryAt.value) != range.localDate(exitAt.value))
  }

  /** An entry still open at the end of the slice. */
  function FinalIncident(at: int, range: Range): Incident {
    if range.start <= at < range.end && range.end > range.now then OpenEntry else EntryWithoutExit
  }

  /** The sessions of `events` when `open` is the entry not yet closed. */
  function Sessions(open: Option<int>, events: seq<Event>, range: Range): seq<Session>
    decreases |events|
  {
    if events == [] then
      if open.Some? then [MakeSession(open, None, Some(FinalIncident(open.value, range)), range)] else []
    else
      var e := events[0];
      if e.kind == Entry then
        (if open.Some? then [MakeSession(open, None, Some(EntryWithoutExit), range)] else [])
        + Sessions(Some(e.at), events[1..], range)
      else if open.Some? then
        [MakeSession(open, Some(e.at), None, range)] + Sessions(None, events[1..], range)
      else
        [MakeSession(None, Some(e.at), Some(ExitWithoutEntryIncident), range)] + Sessions(None, events[1..], range)
  }

  /** Pairs events into sessions, one open entry at a time. */
  method Pair(events: seq<Event>, range: Range) returns (sessions: seq<Session>)
    ensures sessions == Sessions(None, events, range)
  {
    sessions := [];
    var open: Option<int> := None;
    for k := 0 to |events|
      invariant sessions + Sessions(open, events[k..], range) == Sessions(None, events, range)
    {
      var e := events[k];
      assert events[k..][1..] == events[k + 1..];
      ghost var before := sessions;
      ghost var later := Sessions(if e.kind == Entry then Some(e.at) else None, events[k + 1..], range);
      assert forall s :: before + ([s] + later) == before + [s] + later;
      if e.kind == Entry {
        if open.Some? {
          sessions := sessions + [MakeSession(open, None, Some(EntryWithoutExit), range)];
        }
        open := Some(e.at);
      } else if open.Some? {
        sessions := sessions + [MakeSession(open, Some(e.at), None, range)];
        open := None;
      } else {
        sessions := sessions + [MakeSession(None, Some(e.at), Some(ExitWithoutEntryIncident), range)];
      }
    }
    if open.Some? {
      sessions := sessions + [MakeSession(open, None, Some(FinalIncident(open.value, range)), range)];
    }
  }

  // ----- nothing lost, nothing invented -----

  datatype Mark = Mark(kind: EventKind, at: int)

  function MarksOf(events: seq<Event>): seq<Mark> {
    if events == [] then [] else [Mark(events[0].kind, events[0].at)] + MarksOf(events[1..])
  }

  function MarksIn(s: Session): seq<Mark> {
    (if s.entryAt.Some? then [Mark(Entry, s.entryAt.value)] else [])
    + (if s.exitAt.Some? then [Mark(Exit, s.exitAt.value)] else [])
  }

  function Unpair(sessions: seq<Session>): seq<Mark> {
    if sessions == [] then [] else MarksIn(sessions[0]) + Unpair(sessions[1..])
  }

  /** Reading the sessions back gives every event, once, in order: pairing loses and invents nothing. */
  lemma {:induction false} PairRoundTrip(open: Option<int>, events: seq<Event>, range: Range)
    ensures Unpair(Sessions(open, events, range))
         == (if open.Some? then [Mark(Entry, open.value)] else []) + MarksOf(events)
    decreases |events|
  {
    var all, pending := Sessions(open, events, range), if open.Some? then [Mark(Entry, open.value)] else [];
    if events == [] {
      if open.Some? {
        assert all[1..] == [] && MarksIn(all[0]) == pending;
      }
    } else {
      var e := events[0];
      var next := if e.kind == Entry then Some(e.at) else None;
      PairRoundTrip(next, events[1..], range);
      var rest := Sessions(next, events[1..], range);
      if e.kind == Exit || open.Some? {
        assert all[1..] == rest;
        assert MarksIn(all[0]) == pending + if e.kind == Exit then [Mark(Exit, e.at)] else [];
      } else {
        assert all == rest;
      }
    }
  }

  function FirstTime(s: Session): int
    requires s.entryAt.Some? || s.exitAt.Some?
  {
    if s.entryAt.Some? then s.entryAt.value else s.exitAt.value
  }

  function LastTime(s: Session): int
    requires s.entryAt.Some? || s.exitAt.Some?
  {
    if s.exitAt.Some? then s.exitAt.value else s.entryAt.value
  }

  /** Each session lies in time, is over before the next starts, and none starts before `from`. */
  predicate InOrderFrom(sessions: seq<Session>, from: int) {
    sessions == []
    || (var s := sessions[0];
        && (s.entryAt.Some? || s.exitAt.Some?) && from <= FirstTime(s) <= LastTime(s)
        && InOrderFrom(sessions[1..], LastTime(s)))
  }

  lemma {:induction false} InOrderMeans(sessions: seq<Session>, from: int)
    requires InOrderFrom(sessions, from)
    ensures forall i :: 0 <= i < |sessions| ==>
              && (sessions[i].entryAt.Some? || sessions[i].exitAt.Some?)
              && from <= FirstTime(sessions[i]) <= LastTime(sessions[i])
    ensures forall i, j :: 0 <= i < j < |sessions| ==> LastTime(sessions[i]) <= FirstTime(sessions[j])
  {
    if sessions != [] {
      InOrderMeans(sessions[1..], LastTime(sessions[0]));
      assert forall i :: 0 < i < |sessions| ==> sessions[i] == sessions[1..][i - 1];
    }
  }

  lemma InOrderEarlier(sessions: seq<Session>, from: int, earlier: int)
    requires InOrderFrom(sessions, from) && earlier <= from
    ensures InOrderFrom(sessions, earlier)
  {
  }

  ghost predicate Sorted(events: seq<Event>) {
    forall i, j :: 0 <= i < j < |events| ==> events[i].at <= events[j].at
  }

  lemma SortedTail(events: seq<Event>, tail: seq<Event>)
    requires Sorted(events) && events != [] && tail == events[1..]
    ensures Sorted(tail) && (tail != [] ==> events[0].at <= tail[0].at)
  {
  }

  /** A session, or none, before sessions that are in order from `next` on. */
  lemma PutBefore(ended: seq<Session>, rest: seq<Session>, from: int, next: int)
    requires |ended| <= 1 && from <= next && InOrderFrom(rest, next)
    requires ended != [] ==>
               && (ended[0].entryAt.Some? || ended[0].exitAt.Some?)
               && from <= FirstTime(ended[0]) <= LastTime(ended[0]) <= next
    ensures InOrderFrom(ended + rest, from)
  {
    if ended == [] {
      assert ended + rest == rest;
      InOrderEarlier(rest, next, from);
    } else {
      assert (ended + rest)[0] == ended[0] && (ended + rest)[1..] == rest;
      InOrderEarlier(rest, next, LastTime(ended[0]));
    }
  }

  /** The session that ends when event `e` comes, if any. */
  function EndedBy(open: Option<int>, e: Event, range: Range): seq<Session> {
    if e.kind == Exit then
      [MakeSession(open, Some(e.at), if open.Some? then None else Some(ExitWithoutEntryIncident), range)]
    else if open.Some? then [MakeSession(open, None, Some(EntryWithoutExit), range)]
    else []
  }

  lemma SessionsStep(open: Option<int>, events: seq<Event>, range: Range)
    requires events != []
    ensures var e := events[0];
      Sessions(open, events, range)
      == EndedBy(open, e, range) + Sessions(if e.kind == Entry then Some(e.at) else None, events[1..], range)
  {
  }

  /** From events in time order come sessions in time order that do not overlap. */
  lemma {:induction false} SessionsInOrder(open: Option<int>, events: seq<Event>, range: Range, from: int)
    requires Sorted(events)
    requires open.Some? ==> from <= open.value && (events != [] ==> open.value <= events[0].at)
    requires events != [] ==> from <= events[0].at
    ensures InOrderFrom(Sessions(open, events, range), from)
    decreases |events|
  {
    if events != [] {
      var e, tail := events[0], events[1..];
      var next := if e.kind == Entry then Some(e.at) else None;
      SortedTail(events, tail);
      SessionsInOrder(next, tail, range, e.at);
      SessionsStep(open, events, range);
      EndedTimes(open, e, range, from);
      PutBefore(EndedBy(open, e, range), Sessions(next, tail, range), from, e.at);
    }
  }

  lemma EndedTimes(open: Option<int>, e: Event, range: Range, from: int)
    requires (open.Some? ==> from <= open.value <= e.at) && from <= e.at
    ensures var ended := EndedBy(open, e, range);
      && |ended| <= 1
      && (ended != [] ==>
            && (ended[0].entryAt.Some? || ended[0].exitAt.Some?)
            && from <= FirstTime(ended[0]) <= LastTime(ended[0]) <= e.at)
  {
  }

  // ----- a definition that only looks at neighbours -----

  predicate FollowsEntry(events: seq<Event>, i: nat)
    requires i < |events|
  {
    i > 0 && events[i - 1].kind == Entry
  }

  /**
   * The session event `i` starts: an entry starts one, complete exactly when the next event is an exit;
   * an exit starts one exactly when the event before it is not an entry.
   */
  function SessionAt(events: seq<Event>, i: nat, range: Range): seq<Session>
    requires i < |events|
  {
    var e := events[i];
    if e.kind == Exit then
      if FollowsEntry(events, i) then [] else [MakeSession(None, Some(e.at), Some(ExitWithoutEntryIncident), range)]
    else if i + 1 == |events| then [MakeSession(Some(e.at), None, Some(FinalIncident(e.at, range)), range)]
    else if events[i + 1].kind == Exit then [MakeSession(Some(e.at), Some(events[i + 1].at), None, range)]
    else [MakeSession(Some(e.at), None, Some(EntryWithoutExit), range)]
  }

  /** The sessions started by events `from` to `to`, in order. */
  function SessionsBetween(events: seq<Event>, from: nat, to: nat, range: Range): seq<Session>
    requires from <= to <= |events|
    decreases |events| - from
  {
    if from == to then [] else SessionAt(events, from, range) + SessionsBetween(events, from + 1, to, range)
  }

  lemma {:induction false} PairLooksAtNeighboursFrom(events: seq<Event>, i: nat, range: Range)
    requires i <= |events|
    ensures var open := if i > 0 && events[i - 1].kind == Entry then Some(events[i - 1].at) else None;
      Sessions(open, events[i..], range)
      == (if open.Some? then SessionAt(events, i - 1, range) else []) + SessionsBetween(events, i, |events|, range)
    decreases |events| - i
  {
    if i < |events| {
      assert events[i..][1..] == events[i + 1..];
      PairLooksAtNeighboursFrom(events, i + 1, range);
    }
  }

  /** Pairing with one open entry is the same as looking at each event's neighbours. */
  lemma PairLooksAtNeighbours(events: seq<Event>, range: Range)
    ensures Sessions(None, events, range) == SessionsBetween(events, 0, |events|, range)
  {
    PairLooksAtNeighboursFrom(events, 0, range);
    assert events[0..] == events;
  }

  // ----- incidents -----

  function IncidentCount(sessions: seq<Session>): nat {
    if sessions == [] then 0 else (if sessions[0].incident.Some? then 1 else 0) + IncidentCount(sessions[1..])
  }

  lemma {:induction false} IncidentsAreRepeats(open: Option<int>, events: seq<Event>, range: Range)
    ensures var before := if open.Some? then Entry else Exit;
      IncidentCount(Sessions(open, events, range))
      == Repeats(before, events) + (if LastOf(before, events) == Entry then 1 else 0)
    decreases |events|
  {
    if events != [] {
      var e := events[0];
      var next := if e.kind == Entry then Some(e.at) else None;
      IncidentsAreRepeats(next, events[1..], range);
      var before := if open.Some? then Entry else Exit;
      assert LastOf(before, events) == LastOf(e.kind, events[1..]);
      var all, rest := Sessions(open, events, range), Sessions(next, events[1..], range);
      if e.kind == Exit || open.Some? {
        assert all == [all[0]] + rest && all[1..] == rest;
      } else {
        assert all == rest;
      }
    }
  }

  ghost predicate Alternates(events: seq<Event>) {
    forall i :: 0 <= i < |events| ==> events[i].kind == if i % 2 == 0 then Entry else Exit
  }

  lemma {:induction false} NoRepeatsAlternate(before: EventKind, events: seq<Event>)
    requires Repeats(before, events) == 0
    ensures forall i :: 0 <= i < |events| ==> events[i].kind == if (i % 2 == 0) == (before == Exit) then Entry else Exit
    decreases |events|
  {
    if events != [] {
      NoRepeatsAlternate(events[0].kind, events[1..]);
      forall i | 0 < i < |events|
        ensures events[i].kind == if (i % 2 == 0) == (before == Exit) then Entry else Exit
      {
        assert events[i] == events[1..][i - 1];
      }
    }
  }

  /**
   * Over any run of registering and voiding, pairing an employee's whole log yields at most one
   * incident per voided event of the employee, plus one for an entry still open at the end; without
   * voided events the log strictly alternates, entry first.
   */
  lemma IncidentsBoundedByVoids(calls: seq<LogCall>, employee: Id, range: Range)
    ensures var log := RunLog([], calls);
      var live := Live(log, employee);
      && IncidentCount(Sessions(None, live, range))
         <= VoidedCount(log, employee) + (if live != [] && live[|live| - 1].kind == Entry then 1 else 0)
      && (VoidedCount(log, employee) == 0 ==> Alternates(live))
  {
    RunLogKeeps([], calls);
    var log := RunLog([], calls);
    var live := Live(log, employee);
    IncidentsAreRepeats(None, live, range);
    if VoidedCount(log, employee) == 0 {
      NoRepeatsAlternate(Exit, live);
    }
  }
}
