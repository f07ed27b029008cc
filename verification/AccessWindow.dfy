/** When pairing only the loaded slice of the log reports the same as pairing the whole log. */
module AccessWindow {
  import opened Common
  import opened AccessLog
  import opened AccessReport

  function Anchor(s: Session): Option<int> {
    if s.entryAt.Some? then s.entryAt else s.exitAt
  }

  predicate InWindow(s: Session, range: Range) {
    Anchor(s).Some? && range.start <= Anchor(s).value < range.end
  }

  function InPeriod(sessions: seq<Session>, range: Range): seq<Session> {
    if sessions == [] then []
    else if InWindow(sessions[0], range) then [sessions[0]] + InPeriod(sessions[1..], range)
    else InPeriod(sessions[1..], range)
  }

  /** The events loaded from the database: those of [from, to), in order. */
  function Slice(events: seq<Event>, from: int, to: int): seq<Event> {
    if events == [] then []
    else if from <= events[0].at < to then [events[0]] + Slice(events[1..], from, to)
    else Slice(events[1..], from, to)
  }

  function LookbackStart(range: Range): int {
    range.start - LOOKBACK_DAYS * MS_PER_DAY
  }

  function LookaheadEnd(range: Range): int {
    range.end + MS_PER_DAY
  }

  /** The slice the report loads: a week before the period and a day after it. */
  function Loaded(events: seq<Event>, range: Range): seq<Event> {
    Slice(events, LookbackStart(range), LookaheadEnd(range))
  }

  lemma {:induction false} SliceHas(events: seq<Event>, from: int, to: int, e: Event)
    ensures e in Slice(events, from, to) <==> e in events && from <= e.at < to
  {
    if events != [] {
      SliceHas(events[1..], from, to, e);
      assert e in events <==> e == events[0] || e in events[1..];
    }
  }

  /** The report loads exactly the events from seven days before its period to one day after it. */
  lemma LoadedExactly(events: seq<Event>, range: Range, e: Event)
    ensures e in Loaded(events, range)
       <==> e in events && range.start - 7 * 24 * 3600 * 1000 <= e.at < range.end + 24 * 3600 * 1000
  {
    SliceHas(events, LookbackStart(range), LookaheadEnd(range), e);
  }

  /** How many events come before `t`. */
  function CountBefore(events: seq<Event>, t: int): nat {
    if events == [] || events[0].at >= t then 0 else 1 + CountBefore(events[1..], t)
  }

  lemma {:induction false} CountBeforeCuts(events: seq<Event>, t: int)
    requires Sorted(events)
    ensures CountBefore(events, t) <= |events|
    ensures forall i :: 0 <= i < |events| ==> (events[i].at < t <==> i < CountBefore(events, t))
  {
    if events != [] && events[0].at < t {
      CountBeforeCuts(events[1..], t);
      forall i | 0 < i < |events| ensures events[i].at < t <==> i < CountBefore(events, t) {
        assert events[i] == events[1..][i - 1];
      }
    }
  }

  lemma NoneBefore(events: seq<Event>, t: int)
    requires Sorted(events) && events != [] && events[0].at >= t
    ensures CountBefore(events[1..], t) == 0
  {
    if |events| > 1 {
      assert events[1..][0] == events[1];
      assert events[0].at <= events[1].at;
    }
  }

  lemma {:induction false} SliceIsContiguous(events: seq<Event>, from: int, to: int)
    requires Sorted(events) && from <= to
    ensures CountBefore(events, from) <= CountBefore(events, to) <= |events|
    ensures Slice(events, from, to) == events[CountBefore(events, from)..CountBefore(events, to)]
  {
    CountBeforeCuts(events, from);
    CountBeforeCuts(events, to);
    if events != [] {
      var tail := events[1..];
      SliceIsContiguous(tail, from, to);
      var l, r := CountBefore(events, from), CountBefore(events, to);
      if events[0].at < from {
        assert l - 1 == CountBefore(tail, from) && r - 1 == CountBefore(tail, to);
        assert tail[l - 1..r - 1] == events[l..r];
      } else if events[0].at < to {
        NoneBefore(events, from);
        assert events[0..r] == [events[0]] + tail[0..r - 1];
      } else {
        assert r == 0 && l == 0;
        NoneBefore(events, to);
      }
    }
  }

  // ----- the sessions of the period -----

  lemma {:induction false} InPeriodSplit(a: seq<Session>, b: seq<Session>, range: Range)
    ensures InPeriod(a + b, range) == InPeriod(a, range) + InPeriod(b, range)
  {
    if a == [] {
      assert a + b == b;
    } else {
      InPeriodSplit(a[1..], b, range);
      assert (a + b)[1..] == a[1..] + b;
    }
  }

  /** A session is reported by the time of the event that starts it. */
  lemma SessionAtPeriod(events: seq<Event>, i: nat, range: Range)
    requires i < |events|
    ensures InPeriod(SessionAt(events, i, range), range)
         == if range.start <= events[i].at < range.end then SessionAt(events, i, range) else []
  {
    var s := SessionAt(events, i, range);
    if s != [] {
      assert s[1..] == [];
    }
  }

  lemma {:induction false} PeriodBetween(events: seq<Event>, from: nat, to: nat, a: nat, b: nat, range: Range)
    requires from <= to <= |events| && from <= a <= b <= to
    requires forall i :: from <= i < to ==> (range.start <= events[i].at < range.end <==> a <= i < b)
    ensures InPeriod(SessionsBetween(events, from, to, range), range) == SessionsBetween(events, a, b, range)
    decreases |events| - from
  {
    if from < to {
      InPeriodSplit(SessionAt(events, from, range), SessionsBetween(events, from + 1, to, range), range);
      SessionAtPeriod(events, from, range);
      if from < a {
        PeriodBetween(events, from + 1, to, a, b, range);
      } else if a < b {
        PeriodBetween(events, from + 1, to, from + 1, b, range);
      } else {
        PeriodBetween(events, from + 1, to, from + 1, from + 1, range);
      }
    }
  }

  /** The reported sessions are those started by the events of the period. */
  lemma PeriodOfPairing(events: seq<Event>, range: Range)
    requires Sorted(events) && range.start <= range.end
    ensures CountBefore(events, range.start) <= CountBefore(events, range.end) <= |events|
    ensures InPeriod(Sessions(None, events, range), range)
         == SessionsBetween(events, CountBefore(events, range.start), CountBefore(events, range.end), range)
  {
    var a, b := CountBefore(events, range.start), CountBefore(events, range.end);
    CountBeforeCuts(events, range.start);
    CountBeforeCuts(events, range.end);
    PairLooksAtNeighbours(events, range);
    PeriodBetween(events, 0, |events|, a, b, range);
  }

  // ----- slice against whole log -----

  /** The session event `i` starts when only the events from `l` to `r` are loaded. */
  function SessionIn(events: seq<Event>, l: nat, r: nat, i: nat, range: Range): seq<Session>
    requires l <= i < r <= |events|
  {
    var e := events[i];
    if e.kind == Exit then
      if i > l && events[i - 1].kind == Entry then []
      else [MakeSession(None, Some(e.at), Some(ExitWithoutEntryIncident), range)]
    else if i + 1 == r then [MakeSession(Some(e.at), None, Some(FinalIncident(e.at, range)), range)]
    else if events[i + 1].kind == Exit then [MakeSession(Some(e.at), Some(events[i + 1].at), None, range)]
    else [MakeSession(Some(e.at), None, Some(EntryWithoutExit), range)]
  }

  function SessionsIn(events: seq<Event>, l: nat, r: nat, from: nat, to: nat, range: Range): seq<Session>
    requires l <= from <= to <= r <= |events|
    decreases |events| - from
  {
    if from == to then [] else SessionIn(events, l, r, from, range) + SessionsIn(events, l, r, from + 1, to, range)
  }

  lemma {:induction false} SliceSessions(events: seq<Event>, l: nat, r: nat, from: nat, to: nat, range: Range)
    requires l <= from <= to <= r <= |events|
    ensures SessionsBetween(events[l..r], from - l, to - l, range) == SessionsIn(events, l, r, from, to, range)
    decreases |events| - from
  {
    if from < to {
      SliceSessions(events, l, r, from + 1, to, range);
      assert SessionAt(events[l..r], from - l, range) == SessionIn(events, l, r, from, range);
    }
  }

  lemma LogSessions(events: seq<Event>, from: nat, to: nat, range: Range)
    requires from <= to <= |events|
    ensures SessionsBetween(events, from, to, range) == SessionsIn(events, 0, |events|, from, to, range)
  {
    SliceSessions(events, 0, |events|, from, to, range);
    assert events[0..|events|] == events;
  }

  /** The entry of an exit of the period is older than the slice. */
  predicate EntryLost(events: seq<Event>, l: nat, a: nat, b: nat)
    requires l <= a <= b <= |events|
  {
    0 < l == a < b && events[a].kind == Exit && events[a - 1].kind == Entry
  }

  /** What follows the period's last entry is newer than the slice, and would have settled it otherwise. */
  predicate FollowerLost(events: seq<Event>, b: nat, r: nat, a: nat, range: Range)
    requires a <= b <= r <= |events|
  {
    && a < b == r < |events| && events[b - 1].kind == Entry
    && (events[b].kind == Exit || range.end > range.now)
  }

  ghost predicate Cut(events: seq<Event>, l: nat, a: nat, b: nat, r: nat, range: Range) {
    && l <= a <= b <= r <= |events|
    && (forall i :: a <= i < b ==> range.start <= events[i].at < range.end)
  }

  /** From `a` to `to` slice and log start the same sessions when each event starts the same one. */
  lemma {:induction false} SameIn(events: seq<Event>, l: nat, r: nat, a: nat, to: nat, range: Range)
    requires l <= a <= to <= r <= |events|
    requires forall i :: a <= i < to ==> SessionIn(events, l, r, i, range) == SessionIn(events, 0, |events|, i, range)
    ensures SessionsIn(events, l, r, a, to, range) == SessionsIn(events, 0, |events|, a, to, range)
    decreases |events| - a
  {
    if a < to {
      SameIn(events, l, r, a + 1, to, range);
    }
  }

  /** After its first event the slice starts as many sessions as the log. */
  lemma {:induction false} SameCount(events: seq<Event>, l: nat, r: nat, from: nat, to: nat, range: Range)
    requires l < from <= to <= r <= |events|
    ensures |SessionsIn(events, l, r, from, to, range)| == |SessionsIn(events, 0, |events|, from, to, range)|
    decreases |events| - from
  {
    if from < to {
      SameCount(events, l, r, from + 1, to, range);
    }
  }

  lemma {:induction false} LastIn(events: seq<Event>, l: nat, r: nat, a: nat, last: nat, range: Range)
    requires l <= a <= last < r <= |events|
    ensures SessionsIn(events, l, r, a, last + 1, range)
         == SessionsIn(events, l, r, a, last, range) + SessionIn(events, l, r, last, range)
    decreases |events| - a
  {
    if a == last {
      assert SessionsIn(events, l, r, last + 1, last + 1, range) == [];
    } else {
      LastIn(events, l, r, a + 1, last, range);
    }
  }

  lemma TailsDiffer<T>(front: seq<T>, x: seq<T>, y: seq<T>)
    requires x != [] && y != [] && x[0] != y[0]
    ensures front + x != front + y
  {
    assert (front + x)[|front|] == x[0] && (front + y)[|front|] == y[0];
  }

  /** Without its entry in the slice the exit starts a session of its own. */
  lemma EntryLostDiffers(events: seq<Event>, l: nat, a: nat, b: nat, r: nat, range: Range)
    requires Cut(events, l, a, b, r, range) && EntryLost(events, l, a, b)
    ensures SessionsIn(events, l, r, a, b, range) != SessionsIn(events, 0, |events|, a, b, range)
  {
    SameCount(events, l, r, a + 1, b, range);
  }

  /** Without its follower in the slice the last entry ends differently. */
  lemma FollowerLostDiffers(events: seq<Event>, l: nat, a: nat, b: nat, r: nat, range: Range)
    requires Cut(events, l, a, b, r, range) && !EntryLost(events, l, a, b) && FollowerLost(events, b, r, a, range)
    ensures SessionsIn(events, l, r, a, b, range) != SessionsIn(events, 0, |events|, a, b, range)
  {
    SameIn(events, l, r, a, b - 1, range);
    LastIn(events, l, r, a, b - 1, range);
    LastIn(events, 0, |events|, a, b - 1, range);
    TailsDiffer(SessionsIn(events, 0, |events|, a, b - 1, range), SessionIn(events, l, r, b - 1, range),
                SessionIn(events, 0, |events|, b - 1, range));
  }

  /** Slice and log start different sessions in the period exactly when one of the two losses happens. */
  lemma SlicesAgree(events: seq<Event>, l: nat, a: nat, b: nat, r: nat, range: Range)
    requires Cut(events, l, a, b, r, range)
    ensures SessionsIn(events, l, r, a, b, range) == SessionsIn(events, 0, |events|, a, b, range)
       <==> !EntryLost(events, l, a, b) && !FollowerLost(events, b, r, a, range)
  {
    if EntryLost(events, l, a, b) {
      EntryLostDiffers(events, l, a, b, r, range);
    } else if FollowerLost(events, b, r, a, range) {
      FollowerLostDiffers(events, l, a, b, r, range);
    } else {
      SameIn(events, l, r, a, b, range);
    }
  }

  /** The bounds that cut the log into what is before, in and after the slice and the period. */
  ghost predicate Bounds(events: seq<Event>, range: Range, l: nat, a: nat, b: nat, r: nat) {
    && l == CountBefore(events, LookbackStart(range)) && a == CountBefore(events, range.start)
    && b == CountBefore(events, range.end) && r == CountBefore(events, LookaheadEnd(range))
  }

  lemma BoundsCut(events: seq<Event>, range: Range, l: nat, a: nat, b: nat, r: nat)
    requires Sorted(events) && range.start <= range.end && Bounds(events, range, l, a, b, r)
    ensures Cut(events, l, a, b, r, range)
  {
    SliceIsContiguous(events, LookbackStart(range), range.start);
    SliceIsContiguous(events, range.start, range.end);
    SliceIsContiguous(events, range.end, LookaheadEnd(range));
    CountBeforeCuts(events, range.start);
    CountBeforeCuts(events, range.end);
  }

  lemma {:induction false} CountInPrefix(events: seq<Event>, r: nat, t: int)
    requires CountBefore(events, t) <= r <= |events|
    ensures CountBefore(events[..r], t) == CountBefore(events, t)
  {
    if events != [] && events[0].at < t {
      assert events[..r][1..] == events[1..][..r - 1];
      CountInPrefix(events[1..], r - 1, t);
    }
  }

  lemma {:induction false} CountInSuffix(events: seq<Event>, l: nat, t: int)
    requires l <= CountBefore(events, t) && l <= |events|
    ensures CountBefore(events[l..], t) == CountBefore(events, t) - l
  {
    if l > 0 {
      assert events[l..] == events[1..][l - 1..];
      CountInSuffix(events[1..], l - 1, t);
    }
  }

  lemma CountInSlice(events: seq<Event>, l: nat, r: nat, t: int)
    requires l <= CountBefore(events, t) <= r <= |events|
    ensures CountBefore(events[l..r], t) == CountBefore(events, t) - l
  {
    CountInPrefix(events, r, t);
    CountInSuffix(events[..r], l, t);
    assert events[l..r] == events[..r][l..];
  }

  /** A loaded event from before the period means the slice starts before the period does. */
  lemma SliceReachesBack(events: seq<Event>, range: Range, e: Event)
    requires Sorted(events) && range.start <= range.end && e in Loaded(events, range) && e.at < range.start
    ensures CountBefore(events, LookbackStart(range)) < CountBefore(events, range.start)
  {
    SliceIsContiguous(events, LookbackStart(range), LookaheadEnd(range));
    CountBeforeCuts(events, range.start);
    var k :| 0 <= k < |Loaded(events, range)| && Loaded(events, range)[k] == e;
    assert events[CountBefore(events, LookbackStart(range)) + k] == e;
  }

  lemma PeriodOfSlice(events: seq<Event>, slice: seq<Event>, range: Range, l: nat, a: nat, b: nat, r: nat)
    requires Sorted(events) && range.start <= range.end && l <= a <= b <= r <= |events| && slice == events[l..r]
    requires a == CountBefore(events, range.start) && b == CountBefore(events, range.end)
    ensures b - l <= |slice|
    ensures InPeriod(Sessions(None, slice, range), range) == SessionsBetween(slice, a - l, b - l, range)
  {
    CountInSlice(events, l, r, range.start);
    CountInSlice(events, l, r, range.end);
    assert CountBefore(slice, range.start) == a - l && CountBefore(slice, range.end) == b - l;
    SortedPart(events, l, r);
    PeriodOfPairing(slice, range);
  }

  lemma SortedPart(events: seq<Event>, l: nat, r: nat)
    requires Sorted(events) && l <= r <= |events|
    ensures Sorted(events[l..r])
  {
  }

  /**
   * The period's sessions paired from the loaded slice are those paired from the whole log exactly when
   * no exit of the period lost its entry to the lookback, and what follows the period's last entry, if
   * it is past the lookahead, would have left that entry without exit anyway.
   */
  lemma WindowCorrect(events: seq<Event>, range: Range, l: nat, a: nat, b: nat, r: nat)
    requires Sorted(events) && range.start <= range.end && Bounds(events, range, l, a, b, r)
    ensures Cut(events, l, a, b, r, range)
    ensures InPeriod(Sessions(None, Loaded(events, range), range), range)
        == InPeriod(Sessions(None, events, range), range)
       <==> !EntryLost(events, l, a, b) && !FollowerLost(events, b, r, a, range)
  {
    BoundsCut(events, range, l, a, b, r);
    SliceIsContiguous(events, LookbackStart(range), LookaheadEnd(range));
    PeriodOfPairing(events, range);
    PeriodOfSlice(events, Loaded(events, range), range, l, a, b, r);
    SliceSessions(events, l, r, a, b, range);
    LogSessions(events, a, b, range);
    SlicesAgree(events, l, a, b, r, range);
  }

  /**
   * In particular the slice suffices when it holds some event before the period and the event that
   * follows the period's last event, if there is one.
   */
  lemma WindowSuffices(events: seq<Event>, range: Range)
    requires Sorted(events) && range.start <= range.end
    requires exists e :: e in Loaded(events, range) && e.at < range.start
    requires forall i :: 0 < i < |events| && events[i - 1].kind == Entry && range.start <= events[i - 1].at < range.end
               ==> events[i].at < LookaheadEnd(range)
    ensures InPeriod(Sessions(None, Loaded(events, range), range), range)
        == InPeriod(Sessions(None, events, range), range)
  {
    var l, a := CountBefore(events, LookbackStart(range)), CountBefore(events, range.start);
    var b, r := CountBefore(events, range.end), CountBefore(events, LookaheadEnd(range));
    WindowCorrect(events, range, l, a, b, r);
    CountBeforeCuts(events, LookaheadEnd(range));
    var e :| e in Loaded(events, range) && e.at < range.start;
    SliceReachesBack(events, range, e);
  }

  // ----- the condition can fail -----

  lemma PairOfTwo(entry: Event, exit: Event, range: Range)
    requires entry.kind == Entry && exit.kind == Exit
    ensures Sessions(None, [entry, exit], range) == [MakeSession(Some(entry.at), Some(exit.at), None, range)]
  {
    var none: seq<Event> := [];
    assert [entry, exit][1..] == [exit] && [exit][1..] == none && Sessions(None, none, range) == [];
    assert Sessions(Some(entry.at), [exit], range) == [MakeSession(Some(entry.at), Some(exit.at), None, range)];
  }

  lemma SliceOfTwo(a: Event, b: Event, from: int, to: int)
    ensures Slice([a, b], from, to)
         == (if from <= a.at < to then [a] else []) + (if from <= b.at < to then [b] else [])
  {
    var none: seq<Event> := [];
    assert [a, b][1..] == [b] && [b][1..] == none && Slice(none, from, to) == [];
    assert Slice([b], from, to) == if from <= b.at < to then [b] else [];
  }

  /**
   * An entry eight days before the period and an exit at its start: the report shows an exit without entry,
   * where the whole log has a complete session that belongs to an earlier period.
   */
  lemma EntryBeforeTheSlice(entry: Event, exit: Event, range: Range)
    requires entry.kind == Entry && exit.kind == Exit && range.start < range.end
    requires entry.at == range.start - 8 * MS_PER_DAY && exit.at == range.start
    ensures InPeriod(Sessions(None, [entry, exit], range), range) == []
    ensures InPeriod(Sessions(None, Loaded([entry, exit], range), range), range)
         == [MakeSession(None, Some(exit.at), Some(ExitWithoutEntryIncident), range)]
  {
    PairOfTwo(entry, exit, range);
    SliceOfTwo(entry, exit, LookbackStart(range), LookaheadEnd(range));
    assert Loaded([entry, exit], range) == [exit];
    var none: seq<Event> := [];
    assert [exit][1..] == none && Sessions(None, none, range) == [];
    assert Sessions(None, [exit], range) == [MakeSession(None, Some(exit.at), Some(ExitWithoutEntryIncident), range)];
  }

  /**
   * An entry at the end of the period and an exit two days later: the report shows an entry without exit,
   * where the whole log has a complete session.
   */
  lemma FollowerAfterTheSlice(entry: Event, exit: Event, range: Range)
    requires entry.kind == Entry && exit.kind == Exit && range.start < range.end
    requires entry.at == range.end - 1 && exit.at == range.end + 2 * MS_PER_DAY
    ensures InPeriod(Sessions(None, [entry, exit], range), range)
         == [MakeSession(Some(entry.at), Some(exit.at), None, range)]
    ensures InPeriod(Sessions(None, Loaded([entry, exit], range), range), range)
         == [MakeSession(Some(entry.at), None, Some(FinalIncident(entry.at, range)), range)]
  {
    PairOfTwo(entry, exit, range);
    SliceOfTwo(entry, exit, LookbackStart(range), LookaheadEnd(range));
    assert Loaded([entry, exit], range) == [entry];
    var none: seq<Event> := [];
    assert [entry][1..] == none;
    assert Sessions(None, [entry], range)
        == [MakeSession(Some(entry.at), None, Some(FinalIncident(entry.at, range)), range)];
  }
}
