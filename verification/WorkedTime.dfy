/** What a session tells about its events: its minutes, its incident, and whether it crosses midnight. */
module WorkedTime {
  import opened Common
  import opened AccessLog
  import opened AccessReport
  import opened AccessWindow
  import opened AccessTotals

  const HALF_MINUTE := 30 * 1000

  predicate Complete(s: Session) {
    s.entryAt.Some? && s.exitAt.Some?
  }

  /** The time between the ends of a session; none with one end. */
  function Span(s: Session): int {
    if s.entryAt.Some? && s.exitAt.Some? then s.exitAt.value - s.entryAt.value else 0
  }

  /** The minutes of a session are its time to the nearest minute, halves up; an incomplete one has none. */
  predicate MinutesRight(s: Session) {
    if Complete(s) then -HALF_MINUTE < 60 * 1000 * s.workedMinutes - Span(s) <= HALF_MINUTE else s.workedMinutes == 0
  }

  predicate MidnightRight(s: Session, range: Range) {
    s.crossesMidnight
    <==> s.entryAt.Some? && s.exitAt.Some? && range.localDate(s.entryAt.value) != range.localDate(s.exitAt.value)
  }

  /**
   * A complete session has no incident, and an exit alone has its own. An entry alone is open when it is the last
   * session, lies in the period, and the period is not over; otherwise it lacks its exit.
   */
  predicate IncidentRight(s: Session, last: bool, range: Range) {
    if s.entryAt.Some? && s.exitAt.Some? then s.incident.None?
    else if s.exitAt.Some? then s.incident == Some(ExitWithoutEntryIncident)
    else
      && s.entryAt.Some?
      && s.incident
         == if last && range.start <= s.entryAt.value < range.end && range.now < range.end then Some(OpenEntry)
            else Some(EntryWithoutExit)
  }

  predicate Tells(s: Session, last: bool, range: Range) {
    MinutesRight(s) && MidnightRight(s, range) && IncidentRight(s, last, range)
  }

  lemma NearestMinute(ms: int)
    ensures -HALF_MINUTE < 60 * 1000 * RoundedMinutes(ms) - ms <= HALF_MINUTE
  {
  }

  lemma EndedTells(open: Option<int>, e: Event, range: Range)
    ensures forall s :: s in EndedBy(open, e, range) ==>
              Tells(s, false, range) && (e.kind == Exit ==> Tells(s, true, range))
  {
    if open.Some? {
      NearestMinute(e.at - open.value);
    }
  }

  /** Whatever the events, each session tells the truth about them. */
  lemma {:induction false} SessionsTell(open: Option<int>, events: seq<Event>, range: Range)
    ensures var sessions := Sessions(open, events, range);
      && (events == [] && open.None? ==> sessions == [])
      && (forall k :: 0 <= k < |sessions| ==> Tells(sessions[k], k + 1 == |sessions|, range))
      && (open.Some? ==> sessions != [])
    decreases |events|
  {
    if events != [] {
      var e, tail := events[0], events[1..];
      var next := if e.kind == Entry then Some(e.at) else None;
      SessionsTell(next, tail, range);
      SessionsStep(open, events, range);
      EndedTells(open, e, range);
      var ended, rest := EndedBy(open, e, range), Sessions(next, tail, range);
      assert |ended| <= 1;
      forall k | 0 <= k < |ended + rest| ensures Tells((ended + rest)[k], k + 1 == |ended + rest|, range) {
        if k < |ended| {
          assert (ended + rest)[k] in ended;
        } else {
          assert (ended + rest)[k] == rest[k - |ended|];
        }
      }
    }
  }

  // ----- totals -----

  function CompleteCount(sessions: seq<Session>): nat {
    if sessions == [] then 0 else (if Complete(sessions[0]) then 1 else 0) + CompleteCount(sessions[1..])
  }

  function SumSpans(sessions: seq<Session>): int {
    if sessions == [] then 0 else Span(sessions[0]) + SumSpans(sessions[1..])
  }

  predicate RunsForward(s: Session) {
    s.entryAt.Some? && s.exitAt.Some? ==> s.entryAt.value <= s.exitAt.value
  }

  lemma {:induction false} SumsAreNear(sessions: seq<Session>)
    requires forall s :: s in sessions ==> MinutesRight(s) && RunsForward(s)
    ensures SumMinutes(sessions) >= 0
    ensures -HALF_MINUTE * CompleteCount(sessions)
         <= 60 * 1000 * SumMinutes(sessions) - SumSpans(sessions)
         <= HALF_MINUTE * CompleteCount(sessions)
  {
    if sessions != [] {
      var s := sessions[0];
      assert s in sessions && forall x :: x in sessions[1..] ==> x in sessions;
      SumsAreNear(sessions[1..]);
      assert s.workedMinutes >= 0;
    }
  }

  lemma {:induction false} InPeriodKeeps(sessions: seq<Session>, range: Range, s: Session)
    requires s in InPeriod(sessions, range)
    ensures s in sessions
  {
    if s != sessions[0] || !InWindow(sessions[0], range) {
      InPeriodKeeps(sessions[1..], range, s);
    }
  }

  lemma SessionRight(events: seq<Event>, range: Range, s: Session)
    requires Sorted(events) && s in Sessions(None, events, range)
    ensures MinutesRight(s) && RunsForward(s)
  {
    var sessions := Sessions(None, events, range);
    var k :| 0 <= k < |sessions| && sessions[k] == s;
    SessionsTell(None, events, range);
    if events != [] {
      SessionsInOrder(None, events, range, events[0].at);
      InOrderMeans(sessions, events[0].at);
    }
  }

  /**
   * For events in time order the minutes of a period are not negative, and lie within half a minute per complete
   * session of the time between the ends of its sessions.
   */
  lemma WorkedMinutesAreTime(events: seq<Event>, range: Range)
    requires Sorted(events)
    ensures var inWindow := InPeriod(Sessions(None, events, range), range);
      && SumMinutes(inWindow) >= 0
      && -HALF_MINUTE * CompleteCount(inWindow)
         <= 60 * 1000 * SumMinutes(inWindow) - SumSpans(inWindow)
         <= HALF_MINUTE * CompleteCount(inWindow)
  {
    var sessions := Sessions(None, events, range);
    var inWindow := InPeriod(sessions, range);
    forall s | s in inWindow ensures MinutesRight(s) && RunsForward(s) {
      InPeriodKeeps(sessions, range, s);
      SessionRight(events, range, s);
    }
    SumsAreNear(inWindow);
  }

  /** The totals of one person are the time of the sessions, to half a minute each. */
  method PersonTotals(events: seq<Event>, range: Range) returns (t: Totals)
    requires Sorted(events)
    ensures t.workedMinutes >= 0
    ensures var inWindow := InPeriod(Sessions(None, events, range), range);
      && t.sessionCount == |inWindow|
      && -HALF_MINUTE * CompleteCount(inWindow)
         <= 60 * 1000 * t.workedMinutes - SumSpans(inWindow)
         <= HALF_MINUTE * CompleteCount(inWindow)
  {
    WorkedMinutesAreTime(events, range);
    var sessions := Pair(events, range);
    t := Aggregate(sessions, range);
  }

  /** The days with records are the local dates of the sessions' entries, or of exits without entry. */
  lemma {:induction false} DaysAreReported(sessions: seq<Session>, range: Range, day: int)
    ensures day in DaysOf(sessions, range)
       <==> exists k ::
              && 0 <= k < |sessions| && (sessions[k].entryAt.Some? || sessions[k].exitAt.Some?)
              && day == range.localDate(
                   if sessions[k].entryAt.Some? then sessions[k].entryAt.value else sessions[k].exitAt.value)
  {
    if sessions != [] {
      var front := sessions[..|sessions| - 1];
      DaysAreReported(front, range, day);
      assert forall k :: 0 <= k < |front| ==> sessions[k] == front[k];
    }
  }
}
