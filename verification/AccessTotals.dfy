/** The per-person totals of the report and its rows: two views of the same sessions. */
module AccessTotals {
  import opened Common
  import opened AccessLog
  import opened AccessReport
  import opened AccessWindow

  datatype ReportRow = ReportRow(employee: Id, session: Session)

  datatype Totals = Totals(
    hasRecords: bool, firstEntryAt: Option<int>, lastExitAt: Option<int>, workedMinutes: int, sessionCount: nat,
    daysWithRecords: nat, incidents: set<Incident>)

  function SumMinutes(sessions: seq<Session>): int {
    if sessions == [] then 0 else sessions[0].workedMinutes + SumMinutes(sessions[1..])
  }

  /** The local dates on which the sessions are reported. */
  function DaysOf(sessions: seq<Session>, range: Range): set<int> {
    if sessions == [] then {}
    else
      var last := sessions[|sessions| - 1];
      DaysOf(sessions[..|sessions| - 1], range)
      + if Anchor(last).Some? then {range.localDate(Anchor(last).value)} else {}
  }

  function IncidentsOf(sessions: seq<Session>): set<Incident> {
    if sessions == [] then {}
    else
      var last := sessions[|sessions| - 1];
      IncidentsOf(sessions[..|sessions| - 1]) + if last.incident.Some? then {last.incident.value} else {}
  }

  function Earlier(first: Option<int>, at: Option<int>): Option<int> {
    if at.Some? && (first.None? || at.value < first.value) then at else first
  }

  function Later(last: Option<int>, at: Option<int>): Option<int> {
    if at.Some? && (last.None? || at.value > last.value) then at else last
  }

  function FirstEntry(sessions: seq<Session>): Option<int> {
    if sessions == [] then None
    else Earlier(FirstEntry(sessions[..|sessions| - 1]), sessions[|sessions| - 1].entryAt)
  }

  function LastExit(sessions: seq<Session>): Option<int> {
    if sessions == [] then None
    else Later(LastExit(sessions[..|sessions| - 1]), sessions[|sessions| - 1].exitAt)
  }

  /** The first entry is some session's entry, and no session has an earlier one. */
  lemma {:induction false} FirstEntryIsEarliest(sessions: seq<Session>)
    ensures var t := FirstEntry(sessions);
      && (t.Some? ==> exists i :: 0 <= i < |sessions| && sessions[i].entryAt == t)
      && forall i :: 0 <= i < |sessions| && sessions[i].entryAt.Some?
          ==> t.Some? && t.value <= sessions[i].entryAt.value
  {
    if sessions != [] {
      var front := sessions[..|sessions| - 1];
      FirstEntryIsEarliest(front);
      assert forall i :: 0 <= i < |front| ==> sessions[i] == front[i];
    }
  }

  /** The last exit is some session's exit, and no session has a later one. */
  lemma {:induction false} LastExitIsLatest(sessions: seq<Session>)
    ensures var t := LastExit(sessions);
      && (t.Some? ==> exists i :: 0 <= i < |sessions| && sessions[i].exitAt == t)
      && forall i :: 0 <= i < |sessions| && sessions[i].exitAt.Some? ==> t.Some? && t.value >= sessions[i].exitAt.value
  {
    if sessions != [] {
      var front := sessions[..|sessions| - 1];
      LastExitIsLatest(front);
      assert forall i :: 0 <= i < |front| ==> sessions[i] == front[i];
    }
  }

  lemma {:induction false} IncidentsAreReported(sessions: seq<Session>, c: Incident)
    ensures c in IncidentsOf(sessions) <==> exists i :: 0 <= i < |sessions| && sessions[i].incident == Some(c)
  {
    if sessions != [] {
      var front := sessions[..|sessions| - 1];
      IncidentsAreReported(front, c);
      assert forall i :: 0 <= i < |front| ==> sessions[i] == front[i];
    }
  }

  lemma {:induction false} SumMinutesSplit(a: seq<Session>, b: seq<Session>)
    ensures SumMinutes(a + b) == SumMinutes(a) + SumMinutes(b)
  {
    if a == [] {
      assert a + b == b;
    } else {
      SumMinutesSplit(a[1..], b);
      assert (a + b)[1..] == a[1..] + b;
    }
  }

  lemma SumMinutesNext(sessions: seq<Session>, k: nat)
    requires k < |sessions|
    ensures SumMinutes(sessions[..k + 1]) == SumMinutes(sessions[..k]) + sessions[k].workedMinutes
  {
    assert sessions[..k + 1] == sessions[..k] + [sessions[k]];
    SumMinutesSplit(sessions[..k], [sessions[k]]);
  }

  /** One person's totals over the sessions of the period. */
  method Aggregate(sessions: seq<Session>, range: Range) returns (t: Totals)
    ensures var inWindow := InPeriod(sessions, range);
      t == Totals(inWindow != [], FirstEntry(inWindow), LastExit(inWindow), SumMinutes(inWindow), |inWindow|,
                  |DaysOf(inWindow, range)|, IncidentsOf(inWindow))
  {
    var inWindow := InPeriod(sessions, range);
    var minutes := 0;
    var first: Option<int>, last: Option<int> := None, None;
    var incidents: set<Incident>, days: set<int> := {}, {};
    for k := 0 to |inWindow|
      invariant minutes == SumMinutes(inWindow[..k])
      invariant first == FirstEntry(inWindow[..k]) && last == LastExit(inWindow[..k])
      invariant days == DaysOf(inWindow[..k], range) && incidents == IncidentsOf(inWindow[..k])
    {
      var s := inWindow[k];
      assert inWindow[..k + 1][..k] == inWindow[..k];
      SumMinutesNext(inWindow, k);
      minutes := minutes + s.workedMinutes;
      if s.entryAt.Some? && (first.None? || s.entryAt.value < first.value) {
        first := s.entryAt;
      }
      if s.exitAt.Some? && (last.None? || s.exitAt.value > last.value) {
        last := s.exitAt;
      }
      if s.incident.Some? {
        incidents := incidents + {s.incident.value};
      }
      if Anchor(s).Some? {
        days := days + {range.localDate(Anchor(s).value)};
      }
    }
    assert inWindow[..|inWindow|] == inWindow;
    t := Totals(|inWindow| > 0, first, last, minutes, |inWindow|, |days|, incidents);
  }

  // ----- rows -----

  function RowsOf(employee: Id, sessions: seq<Session>): seq<ReportRow> {
    if sessions == [] then []
    else RowsOf(employee, sessions[..|sessions| - 1]) + [ReportRow(employee, sessions[|sessions| - 1])]
  }

  function SessionsOf(byEmployee: map<Id, seq<Session>>, employee: Id): seq<Session> {
    if employee in byEmployee then byEmployee[employee] else []
  }

  function AllRows(people: seq<Id>, byEmployee: map<Id, seq<Session>>, range: Range): seq<ReportRow> {
    if people == [] then []
    else
      var last := people[|people| - 1];
      AllRows(people[..|people| - 1], byEmployee, range) + RowsOf(last, InPeriod(SessionsOf(byEmployee, last), range))
  }

  /** One row per session of the period, person by person. */
  method BuildSessionRows(people: seq<Id>, byEmployee: map<Id, seq<Session>>, range: Range)
    returns (rows: seq<ReportRow>)
    ensures rows == AllRows(people, byEmployee, range)
  {
    rows := [];
    for k := 0 to |people|
      invariant rows == AllRows(people[..k], byEmployee, range)
    {
      var sessions := InPeriod(SessionsOf(byEmployee, people[k]), range);
      assert people[..k + 1][..k] == people[..k];
      ghost var before := rows;
      for i := 0 to |sessions|
        invariant rows == before + RowsOf(people[k], sessions[..i])
      {
        assert sessions[..i + 1][..i] == sessions[..i];
        rows := rows + [ReportRow(people[k], sessions[i])];
      }
      assert sessions[..|sessions|] == sessions;
    }
    assert people[..|people|] == people;
  }

  /** Minutes and rows of one employee among all the rows. */
  function MinutesOf(rows: seq<ReportRow>, employee: Id): int {
    if rows == [] then 0
    else (if rows[0].employee == employee then rows[0].session.workedMinutes else 0) + MinutesOf(rows[1..], employee)
  }

  function CountOf(rows: seq<ReportRow>, employee: Id): nat {
    if rows == [] then 0 else (if rows[0].employee == employee then 1 else 0) + CountOf(rows[1..], employee)
  }

  lemma {:induction false} OfSplit(a: seq<ReportRow>, b: seq<ReportRow>, employee: Id)
    ensures MinutesOf(a + b, employee) == MinutesOf(a, employee) + MinutesOf(b, employee)
    ensures CountOf(a + b, employee) == CountOf(a, employee) + CountOf(b, employee)
  {
    if a == [] {
      assert a + b == b;
    } else {
      OfSplit(a[1..], b, employee);
      assert (a + b)[1..] == a[1..] + b;
    }
  }

  lemma {:induction false} RowsOfOne(owner: Id, sessions: seq<Session>, employee: Id)
    ensures MinutesOf(RowsOf(owner, sessions), employee) == if owner == employee then SumMinutes(sessions) else 0
    ensures CountOf(RowsOf(owner, sessions), employee) == if owner == employee then |sessions| else 0
  {
    if sessions != [] {
      var n := |sessions| - 1;
      var row := ReportRow(owner, sessions[n]);
      RowsOfOne(owner, sessions[..n], employee);
      OfSplit(RowsOf(owner, sessions[..n]), [row], employee);
      assert [row][1..] == [];
      SumMinutesNext(sessions, n);
      assert sessions[..n + 1] == sessions;
    }
  }

  ghost predicate Distinct(people: seq<Id>) {
    forall i, j :: 0 <= i < j < |people| ==> people[i] != people[j]
  }

  lemma LastOfDistinct(people: seq<Id>, employee: Id)
    requires Distinct(people) && people != []
    ensures var front, last := people[..|people| - 1], people[|people| - 1];
      Distinct(front) && last !in front && (employee in people <==> employee == last || employee in front)
  {
    var front := people[..|people| - 1];
    assert people == front + [people[|people| - 1]];
  }

  /** Adding up the rows of a person gives the person's totals, and people not listed have no row. */
  lemma {:induction false} RowsAddUpToTotals(people: seq<Id>, byEmployee: map<Id, seq<Session>>, range: Range,
                                             employee: Id)
    requires Distinct(people)
    ensures var rows := AllRows(people, byEmployee, range);
      var own := InPeriod(SessionsOf(byEmployee, employee), range);
      if employee in people then MinutesOf(rows, employee) == SumMinutes(own) && CountOf(rows, employee) == |own|
      else MinutesOf(rows, employee) == 0 && CountOf(rows, employee) == 0
  {
    if people != [] {
      var front, last := people[..|people| - 1], people[|people| - 1];
      var before := AllRows(front, byEmployee, range);
      var rows := RowsOf(last, InPeriod(SessionsOf(byEmployee, last), range));
      LastOfDistinct(people, employee);
      RowsAddUpToTotals(front, byEmployee, range, employee);
      RowsOfOne(last, InPeriod(SessionsOf(byEmployee, last), range), employee);
      assert AllRows(people, byEmployee, range) == before + rows;
      OfSplit(before, rows, employee);
    }
  }
}
