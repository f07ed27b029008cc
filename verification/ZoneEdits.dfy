/**
 * How zones are edited. A call checks its input against the table, awaits, and then writes, without a
 * transaction; other calls may check and write in between.
 */
module ZoneEdits {
  import opened Common
  import opened Zones
  import opened HotelState
  import opened Database

  // ----- one call: check, then write -----

  /** A field left out keeps its value; `parent := Some(None)` clears the parent. */
  datatype ZoneUpdate = ZoneUpdate(
    kind: Option<ZoneKind>, parent: Option<Option<Id>>, requiresInspection: Option<bool>, active: Option<bool>)

  /** The three calls, an update and a removal with the room table their check reads. */
  datatype Edit =
    | Create(kind: ZoneKind, parent: Option<Id>, requiresInspection: bool)
    | Update(id: Id, u: ZoneUpdate, rooms: seq<Room>)
    | Remove(id: Id, rooms: seq<Room>)

  /** What a call that passed its checks will write. */
  datatype Write = Insert(zone: Zone) | Assign(id: Id, u: ZoneUpdate)

  function Given<T>(o: Option<T>, otherwise: T): T {
    if o.Some? then o.value else otherwise
  }

  function ParentError(zones: seq<Zone>, kind: ZoneKind, parent: Option<Id>): Option<Error> {
    if kind == Floor then
      if parent.None? || parent.value >= |zones| || zones[parent.value].kind != Building || !zones[parent.value].active
      then Some(ZoneParentInvalid) else None
    else if parent.Some? then Some(ZoneParentInvalid) else None
  }

  predicate HasActiveChild(zones: seq<Zone>, id: Id) {
    exists z :: 0 <= z < |zones| && zones[z].parent == Some(id) && zones[z].active
  }

  predicate HasActiveRoom(rooms: seq<Room>, id: Id) {
    exists r :: 0 <= r < |rooms| && rooms[r].zone == id && rooms[r].active
  }

  /** The update asks for a kind or for a parent, its own or none. */
  predicate Rehangs(u: ZoneUpdate) {
    u.kind.Some? || u.parent.Some?
  }

  const DISABLE := ZoneUpdate(None, None, None, Some(false))

  function CheckChange(zones: seq<Zone>, rooms: seq<Room>, id: Id, u: ZoneUpdate): Result<Write> {
    if id >= |zones| then Err(ZoneNotFound)
    else
      var kind, parent := Given(u.kind, zones[id].kind), Given(u.parent, zones[id].parent);
      if Rehangs(u) && (parent == Some(id) || ParentError(zones, kind, parent).Some?) then Err(ZoneParentInvalid)
      else if u.active == Some(false) && (HasActiveRoom(rooms, id) || HasActiveChild(zones, id)) then Err(ZoneInUse)
      else Ok(Assign(id, u))
  }

  function CheckEdit(zones: seq<Zone>, e: Edit): Result<Write> {
    match e
    case Create(kind, parent, inspection) =>
      if ParentError(zones, kind, parent).Some? then Err(ZoneParentInvalid)
      else Ok(Insert(Zone(kind, parent, inspection, true)))
    case Update(id, u, rooms) => CheckChange(zones, rooms, id, u)
    case Remove(id, rooms) => CheckChange(zones, rooms, id, DISABLE)
  }

  function Changed(zone: Zone, u: ZoneUpdate): Zone {
    Zone(Given(u.kind, zone.kind), Given(u.parent, zone.parent), Given(u.requiresInspection, zone.requiresInspection),
         Given(u.active, zone.active))
  }

  function ApplyWrite(zones: seq<Zone>, w: Write): seq<Zone> {
    match w
    case Insert(zone) => zones + [zone]
    case Assign(id, u) => if id < |zones| then zones[id := Changed(zones[id], u)] else zones
  }

  // ----- what the checks let through, and what is written -----

  /** The parent rule: a floor lies in an active building, and nothing else has a parent. */
  predicate Placed(zones: seq<Zone>, kind: ZoneKind, parent: Option<Id>) {
    if kind == Floor then
      && parent.Some? && parent.value < |zones|
      && zones[parent.value].kind == Building && zones[parent.value].active
    else parent.None?
  }

  /** No active room and no active child. */
  ghost predicate Unused(zones: seq<Zone>, rooms: seq<Room>, id: Id) {
    && (forall r :: 0 <= r < |rooms| && rooms[r].zone == id ==> !rooms[r].active)
    && (forall z :: 0 <= z < |zones| && zones[z].parent == Some(id) ==> !zones[z].active)
  }

  /** The value given, or else the one there was. */
  predicate GivenOr<T(==)>(given: Option<T>, before: T, after: T) {
    after == if given.Some? then given.value else before
  }

  ghost predicate Accepts(zones: seq<Zone>, e: Edit) {
    match e
    case Create(kind, parent, _) => Placed(zones, kind, parent)
    case Update(id, u, rooms) =>
      && id < |zones|
      && (u.kind.Some? || u.parent.Some? ==>
            exists kind, parent ::
              GivenOr(u.kind, zones[id].kind, kind) && GivenOr(u.parent, zones[id].parent, parent)
              && parent != Some(id) && Placed(zones, kind, parent))
      && (u.active == Some(false) ==> Unused(zones, rooms, id))
    case Remove(id, rooms) => id < |zones| && Unused(zones, rooms, id)
  }

  /** What a zone becomes. */
  predicate Becomes(zone: Zone, u: ZoneUpdate, after: Zone) {
    && GivenOr(u.kind, zone.kind, after.kind) && GivenOr(u.parent, zone.parent, after.parent)
    && GivenOr(u.requiresInspection, zone.requiresInspection, after.requiresInspection)
    && GivenOr(u.active, zone.active, after.active)
  }

  /**
   * A call passes its checks exactly under the parent and in-use rules. Done at once, it adds the zone, changes the
   * fields it was given, or deactivates the zone, and touches no other.
   */
  lemma EditsExactly(zones: seq<Zone>, e: Edit)
    ensures CheckEdit(zones, e).Ok? <==> Accepts(zones, e)
    ensures CheckEdit(zones, e).Ok? ==>
              var after := ApplyWrite(zones, CheckEdit(zones, e).value);
              match e
              case Create(kind, parent, inspection) => after == zones + [Zone(kind, parent, inspection, true)]
              case Update(id, u, _) => |after| == |zones| && Becomes(zones[id], u, after[id])
                                       && after == zones[id := after[id]]
              case Remove(id, _) => after == zones[id := zones[id].(active := false)]
  {
    match e {
      case Create(_, _, _) =>
      case Update(id, u, rooms) =>
        if id < |zones| {
          var kind, parent := Given(u.kind, zones[id].kind), Given(u.parent, zones[id].parent);
          assert GivenOr(u.kind, zones[id].kind, kind) && GivenOr(u.parent, zones[id].parent, parent);
        }
      case Remove(id, rooms) =>
    }
  }

  // ----- schedules of calls -----

  /** The zone table and the writes of the calls that have passed their checks. */
  datatype Book = Book(zones: seq<Zone>, open: seq<Write>)

  datatype Step = Check(e: Edit) | Land(k: nat)

  const EMPTY := Book([], [])
  const BUILDING := Zone(Building, None, false, true)

  function Exec(b: Book, s: Step): Book {
    match s
    case Check(e) =>
      var w := CheckEdit(b.zones, e);
      if w.Ok? then Book(b.zones, b.open + [w.value]) else b
    case Land(k) =>
      if k < |b.open| then Book(ApplyWrite(b.zones, b.open[k]), b.open[..k] + b.open[k + 1..]) else b
  }

  function Run(b: Book, steps: seq<Step>): Book
    decreases |steps|
  {
    if steps == [] then b else Run(Exec(b, steps[0]), steps[1..])
  }

  // ----- what a write does to the graph -----

  /** A write names zones that exist. */
  predicate Known(zones: seq<Zone>, w: Write) {
    match w
    case Insert(zone) => zone.parent.Some? ==> zone.parent.value < |zones|
    case Assign(id, u) => id < |zones| && (u.parent.Some? && u.parent.value.Some? ==> u.parent.value.value < |zones|)
  }

  /** The write hangs a zone below itself or below a zone that lies below it. */
  ghost predicate ClosesRing(zones: seq<Zone>, w: Write) {
    w.Assign? && w.u.parent.Some? && w.u.parent.value.Some? && Below(zones, w.u.parent.value.value, w.id)
  }

  /** Every zone below `id` lifted above all others. */
  ghost function Lifted(zones: seq<Zone>, rank: seq<int>, id: Id, lift: int): seq<int>
    requires |rank| == |zones|
  {
    seq(|rank|, z requires 0 <= z < |rank| => if Below(zones, z, id) then rank[z] + lift else rank[z])
  }

  function Maximum(rank: seq<int>): int
    ensures forall z :: 0 <= z < |rank| ==> rank[z] <= Maximum(rank)
  {
    if rank == [] then 0
    else
      var m := Maximum(rank[1..]);
      assert forall z :: 0 < z < |rank| ==> rank[z] == rank[1..][z - 1];
      if rank[0] > m then rank[0] else m
  }

  /** A zone hung where it closes no ring: lift what lies below it. */
  lemma HangKeepsRanks(zones: seq<Zone>, rank: seq<int>, id: Id, p: Id, zone: Zone)
    requires Ranked(zones, rank) && id < |zones| && p < |zones| && zone.parent == Some(p) && !Below(zones, p, id)
    ensures Ranked(zones[id := zone], Lifted(zones, rank, id, Maximum(rank) - Minimum(rank) + 1))
  {
    var after, lifted := zones[id := zone], Lifted(zones, rank, id, Maximum(rank) - Minimum(rank) + 1);
    assert Climb(zones, Some(id), 0) == Some(id);
    forall z | 0 <= z < |after| && after[z].parent.Some? ensures lifted[after[z].parent.value] < lifted[z] {
      if z != id {
        BelowParent(zones, z, zones[z].parent.value, id);
      }
    }
  }

  lemma BelowParent(zones: seq<Zone>, z: Id, p: Id, a: Id)
    requires z < |zones| && p < |zones| && zones[z].parent == Some(p) && z != a
    ensures Below(zones, z, a) <==> Below(zones, p, a)
  {
    if Below(zones, z, a) {
      var n: nat :| Climb(zones, Some(z), n) == Some(a);
      assert n > 0 && Climb(zones, Some(p), n - 1) == Some(a);
    }
    if Below(zones, p, a) {
      var n: nat :| Climb(zones, Some(p), n) == Some(a);
      assert Climb(zones, Some(z), n + 1) == Some(a);
    }
  }

  /** Climbing to `id` does not depend on what `id` itself hangs below. */
  lemma {:induction false} ClimbWithout(zones: seq<Zone>, id: Id, zone: Zone, z: Id, n: nat) returns (m: nat)
    requires id < |zones| && Climb(zones, Some(z), n) == Some(id)
    ensures Climb(zones[id := zone], Some(z), m) == Some(id)
    decreases n
  {
    if z == id {
      m := 0;
    } else {
      m := ClimbWithout(zones, id, zone, zones[z].parent.value, n - 1);
      m := m + 1;
    }
  }

  /** A write keeps the graph acyclic exactly when it does not hang a zone below itself or a zone under it. */
  lemma WriteKeepsExactly(zones: seq<Zone>, w: Write)
    requires Acyclic(zones) && Known(zones, w)
    ensures Acyclic(ApplyWrite(zones, w)) <==> !ClosesRing(zones, w)
  {
    var rank :| Ranked(zones, rank);
    var after := ApplyWrite(zones, w);
    match w {
      case Insert(zone) =>
        assert Ranked(after, rank + [if zone.parent.Some? then rank[zone.parent.value] + 1 else 0]);
      case Assign(id, u) =>
        if u.parent.None? || u.parent.value.None? {
          assert Ranked(after, rank);
        } else if ClosesRing(zones, w) {
          var p := u.parent.value.value;
          var n: nat :| Climb(zones, Some(p), n) == Some(id);
          var m := ClimbWithout(zones, id, after[id], p, n);
          assert Climb(after, Some(id), m + 1) == Some(id);
          if Acyclic(after) {
            NoZoneAboveItself(after, id, m + 1);
          }
        } else {
          HangKeepsRanks(zones, rank, id, u.parent.value.value, after[id]);
        }
    }
  }

  ghost predicate AllKnown(b: Book) {
    forall k :: 0 <= k < |b.open| ==> Known(b.zones, b.open[k])
  }

  lemma ExecKnows(b: Book, s: Step)
    requires AllKnown(b)
    ensures AllKnown(Exec(b, s))
  {
    var after := Exec(b, s);
    forall k | 0 <= k < |after.open| ensures Known(after.zones, after.open[k]) {
      if s.Land? && s.k < |b.open| {
        assert after.open[k] == b.open[if k < s.k then k else k + 1];
      }
    }
  }

  // ----- whole schedules -----

  ghost predicate AlwaysAcyclic(b: Book, steps: seq<Step>)
    decreases |steps|
  {
    Acyclic(b.zones) && (steps == [] || AlwaysAcyclic(Exec(b, steps[0]), steps[1..]))
  }

  /** No write of the schedule closes a ring when it lands. */
  ghost predicate NeverCloses(b: Book, steps: seq<Step>)
    decreases |steps|
  {
    || steps == []
    || (!(steps[0].Land? && steps[0].k < |b.open| && ClosesRing(b.zones, b.open[steps[0].k]))
        && NeverCloses(Exec(b, steps[0]), steps[1..]))
  }

  /** Over any schedule the graph stays acyclic exactly when no landing write closes a ring. */
  lemma {:induction false} AcyclicExactlyUnlessClosed(b: Book, steps: seq<Step>)
    requires Acyclic(b.zones) && AllKnown(b)
    ensures AlwaysAcyclic(b, steps) <==> NeverCloses(b, steps)
    decreases |steps|
  {
    if steps != [] {
      var after := Exec(b, steps[0]);
      ExecKnows(b, steps[0]);
      if steps[0].Land? && steps[0].k < |b.open| {
        WriteKeepsExactly(b.zones, b.open[steps[0].k]);
      }
      if Acyclic(after.zones) {
        AcyclicExactlyUnlessClosed(after, steps[1..]);
      }
    }
  }

  predicate IsRehang(w: Write) {
    w.Assign? && Rehangs(w.u)
  }

  /** The open calls that give a zone a kind or a parent. */
  ghost function OpenRehangs(b: Book): set<nat> {
    set k | 0 <= k < |b.open| && IsRehang(b.open[k])
  }

  /** Throughout the schedule at most `n` such calls are open at a time. */
  ghost predicate AtMostOpen(b: Book, steps: seq<Step>, n: nat)
    decreases |steps|
  {
    |OpenRehangs(b)| <= n && (steps == [] || AtMostOpen(Exec(b, steps[0]), steps[1..], n))
  }

  /** The rule for parents, but that a parent may have been deactivated meanwhile. */
  predicate HangsWell(zones: seq<Zone>, kind: ZoneKind, parent: Option<Id>) {
    if kind == Floor then parent.Some? && parent.value < |zones| && zones[parent.value].kind == Building
    else parent.None?
  }

  /** An open write still obeys the rule that its call checked. */
  predicate StillFits(zones: seq<Zone>, w: Write) {
    && Known(zones, w)
    && match w
       case Insert(zone) => zone.kind != Floor ==> zone.parent.None?
       case Assign(id, u) =>
         Rehangs(u) ==>
           Changed(zones[id], u).parent != Some(id)
           && HangsWell(zones, Changed(zones[id], u).kind, Changed(zones[id], u).parent)
  }

  ghost predicate Sound(b: Book) {
    && ZonesInv(b.zones)
    && |OpenRehangs(b)| <= 1
    && forall k :: 0 <= k < |b.open| ==> StillFits(b.zones, b.open[k])
  }

  /** Any zone may be hung below a root other than itself: rank the root below everything. */
  lemma HangBelowRoot(zones: seq<Zone>, id: Id, zone: Zone)
    requires ZonesInv(zones) && id < |zones|
    requires zone.kind != Floor ==> zone.parent.None?
    requires zone.parent == zones[id].parent
          || zone.parent.None?
          || (zone.parent.value < |zones| && zone.parent.value != id && zones[zone.parent.value].kind != Floor)
    ensures ZonesInv(zones[id := zone])
  {
    var rank :| Ranked(zones, rank);
    if zone.parent == zones[id].parent || zone.parent.None? {
      assert Ranked(zones[id := zone], rank);
    } else {
      assert Ranked(zones[id := zone], rank[zone.parent.value := Minimum(rank) - 1]);
    }
  }

  lemma LandingKeeps(zones: seq<Zone>, w: Write)
    requires ZonesInv(zones) && StillFits(zones, w)
    ensures ZonesInv(ApplyWrite(zones, w))
  {
    match w {
      case Insert(zone) => WriteKeepsExactly(zones, w);
      case Assign(id, u) => HangBelowRoot(zones, id, Changed(zones[id], u));
    }
  }

  lemma OneRehang(b: Book, j: nat, k: nat)
    requires |OpenRehangs(b)| <= 1 && j < |b.open| && k < |b.open| && j != k
    ensures !(IsRehang(b.open[j]) && IsRehang(b.open[k]))
  {
    if IsRehang(b.open[j]) && IsRehang(b.open[k]) {
      Subset({j, k}, OpenRehangs(b));
    }
  }

  /** A write leaves the others fitting, unless both it and the other give a zone a kind or a parent. */
  lemma OthersStillFit(zones: seq<Zone>, w: Write, other: Write)
    requires StillFits(zones, w) && StillFits(zones, other)
    requires !(IsRehang(w) && IsRehang(other))
    ensures StillFits(ApplyWrite(zones, w), other)
  {
  }

  /** A write that has just passed its checks fits. */
  lemma CheckedFits(zones: seq<Zone>, e: Edit)
    requires CheckEdit(zones, e).Ok?
    ensures StillFits(zones, CheckEdit(zones, e).value)
  {
  }

  lemma LandSound(b: Book, k: nat)
    requires Sound(b) && k < |b.open| && |OpenRehangs(Exec(b, Land(k)))| <= 1
    ensures Sound(Exec(b, Land(k)))
  {
    var after := Exec(b, Land(k));
    LandingKeeps(b.zones, b.open[k]);
    forall i | 0 <= i < |after.open| ensures StillFits(after.zones, after.open[i]) {
      var before := if i < k then i else i + 1;
      OneRehang(b, k, before);
      OthersStillFit(b.zones, b.open[k], b.open[before]);
    }
  }

  lemma ExecSound(b: Book, s: Step)
    requires Sound(b) && |OpenRehangs(Exec(b, s))| <= 1
    ensures Sound(Exec(b, s))
  {
    if s.Land? && s.k < |b.open| {
      LandSound(b, s.k);
    } else if s.Check? && CheckEdit(b.zones, s.e).Ok? {
      CheckedFits(b.zones, s.e);
    }
  }

  /** As long as at most one call that gives a zone a kind or a parent is open at a time, the graph is acyclic. */
  lemma {:induction false} OneRehangKeeps(b: Book, steps: seq<Step>)
    requires Sound(b) && AtMostOpen(b, steps, 1)
    ensures AlwaysAcyclic(b, steps) && Sound(Run(b, steps))
    decreases |steps|
  {
    if steps != [] {
      assert AtMostOpen(Exec(b, steps[0]), steps[1..], 1);
      ExecSound(b, steps[0]);
      OneRehangKeeps(Exec(b, steps[0]), steps[1..]);
    }
  }

  // ----- two at a time -----

  const BELOW_1 := ZoneUpdate(Some(Floor), Some(Some(1)), None, None)
  const BELOW_0 := ZoneUpdate(Some(Floor), Some(Some(0)), None, None)

  /** Two buildings, each checked for a place below the other before either is written. */
  const CROSSED := [Check(Create(Building, None, false)), Land(0), Check(Create(Building, None, false)), Land(0),
    Check(Update(0, BELOW_1, [])), Check(Update(1, BELOW_0, [])), Land(0), Land(0)]

  lemma {:induction false} RingNeverEnds(zones: seq<Zone>, z: Id, n: nat)
    requires |zones| == 2 && z < 2 && !zones[0].requiresInspection && !zones[1].requiresInspection
    requires zones[0].parent == Some(1) && zones[1].parent == Some(0)
    ensures !StopsAt(zones, z, n)
    decreases n
  {
    if n > 0 {
      RingNeverEnds(zones, zones[z].parent.value, n - 1);
    }
  }

  lemma Stopless(zones: seq<Zone>, zone: Id)
    requires !ClimbStops(zones, zone)
    ensures !Acyclic(zones)
  {
    if Acyclic(zones) {
      AcyclicStops(zones, zone);
    }
  }

  lemma FewRehangs(b: Book)
    ensures |OpenRehangs(b)| <= |b.open|
  {
    SizeBound(OpenRehangs(b), |b.open|);
  }

  /** A schedule followed book by book. */
  lemma {:induction false} FollowRun(books: seq<Book>, steps: seq<Step>, k: nat, n: nat)
    requires |books| == |steps| + 1 && k <= |steps|
    requires forall i :: 0 <= i < |steps| ==> Exec(books[i], steps[i]) == books[i + 1]
    requires forall i :: 0 <= i < |books| ==> |books[i].open| <= n
    ensures Run(books[k], steps[k..]) == books[|steps|] && AtMostOpen(books[k], steps[k..], n)
    decreases |steps| - k
  {
    FewRehangs(books[k]);
    if k < |steps| {
      assert steps[k..][1..] == steps[k + 1..];
      FollowRun(books, steps, k + 1, n);
    }
  }

  const RING := [Zone(Floor, Some(1), false, true), Zone(Floor, Some(0), false, true)]

  lemma CrossedRun(n: nat)
    requires n >= 2
    ensures AtMostOpen(EMPTY, CROSSED, n) && Run(EMPTY, CROSSED) == Book(RING, [])
  {
    var one, w0, w1 := BUILDING, Assign(0, BELOW_1), Assign(1, BELOW_0);
    var books := [EMPTY, Book([], [Insert(one)]), Book([one], []), Book([one], [Insert(one)]), Book([one, one], []),
      Book([one, one], [w0]), Book([one, one], [w0, w1]), Book([RING[0], one], [w1]), Book(RING, [])];
    FollowRun(books, CROSSED, 0, n);
  }

  /** Both writes land: the graph is cyclic, and climbing from either building never ends. */
  lemma CrossedUpdatesCloseARing()
    ensures var zones := Run(EMPTY, CROSSED).zones;
      AtMostOpen(EMPTY, CROSSED, 2) && !Acyclic(zones) && !ClimbStops(zones, 0) && !ClimbStops(zones, 1)
  {
    CrossedRun(2);
    forall z, n: nat | 0 <= z < 2 ensures !StopsAt(RING, z, n) {
      RingNeverEnds(RING, z, n);
    }
    Stopless(RING, 0);
  }

  /**
   * With at most `n` calls that give a zone a kind or a parent open at a time, the graph is acyclic over all
   * schedules exactly when `n` is at most one.
   */
  lemma AcyclicExactlyOneAtATime(n: nat)
    ensures (forall steps :: AtMostOpen(EMPTY, steps, n) ==> Acyclic(Run(EMPTY, steps).zones)) <==> n <= 1
  {
    if n <= 1 {
      forall steps | AtMostOpen(EMPTY, steps, n) ensures Acyclic(Run(EMPTY, steps).zones) {
        EmptySound();
        OpenFewer(EMPTY, steps, n, 1);
        OneRehangKeeps(EMPTY, steps);
      }
    } else {
      CrossedRun(n);
      CrossedUpdatesCloseARing();
    }
  }

  lemma EmptySound()
    ensures Sound(EMPTY)
  {
    assert Ranked([], []);
    assert OpenRehangs(EMPTY) == {};
  }

  lemma {:induction false} OpenFewer(b: Book, steps: seq<Step>, m: nat, n: nat)
    requires m <= n && AtMostOpen(b, steps, m)
    ensures AtMostOpen(b, steps, n)
    decreases |steps|
  {
    if steps != [] {
      OpenFewer(Exec(b, steps[0]), steps[1..], m, n);
    }
  }

  // ----- calls one after the other -----

  function ExecEdit(zones: seq<Zone>, e: Edit): Result<seq<Zone>> {
    var w :- CheckEdit(zones, e);
    Ok(ApplyWrite(zones, w))
  }

  function RunEdits(zones: seq<Zone>, edits: seq<Edit>): seq<Zone>
    decreases |edits|
  {
    if edits == [] then zones
    else
      match ExecEdit(zones, edits[0])
      case Ok(after) => RunEdits(after, edits[1..])
      case Err(_) => RunEdits(zones, edits[1..])
  }

  /** Each call written before the next is checked. */
  function InTurn(edits: seq<Edit>): seq<Step> {
    if edits == [] then [] else [Check(edits[0]), Land(0)] + InTurn(edits[1..])
  }

  /** Calls in turn are a schedule with never more than one call open. */
  lemma {:induction false} InTurnIsASchedule(zones: seq<Zone>, edits: seq<Edit>)
    ensures Run(Book(zones, []), InTurn(edits)) == Book(RunEdits(zones, edits), [])
    ensures AtMostOpen(Book(zones, []), InTurn(edits), 1)
    decreases |edits|
  {
    var b := Book(zones, []);
    FewRehangs(b);
    if edits != [] {
      var checked := Exec(b, Check(edits[0]));
      FewRehangs(checked);
      var after := match ExecEdit(zones, edits[0]) case Ok(z) => z case Err(_) => zones;
      assert Exec(checked, Land(0)) == Book(after, []);
      InTurnIsASchedule(after, edits[1..]);
      assert InTurn(edits)[1..][1..] == InTurn(edits[1..]);
    }
  }

  lemma EditKeeps(zones: seq<Zone>, e: Edit)
    requires ZonesInv(zones) && ExecEdit(zones, e).Ok?
    ensures ZonesInv(ExecEdit(zones, e).value)
  {
    var w := CheckEdit(zones, e).value;
    if w.Assign? {
      HangBelowRoot(zones, w.id, Changed(zones[w.id], w.u));
    } else {
      LandingKeeps(zones, w);
    }
  }

  lemma ReachableAcyclic(edits: seq<Edit>)
    ensures Acyclic(RunEdits([], edits))
  {
    EmptySound();
    InTurnIsASchedule([], edits);
    OneRehangKeeps(EMPTY, InTurn(edits));
  }

  // ----- depth -----

  function Buildings(n: nat): seq<Edit> {
    if n == 0 then [] else [Create(Building, None, false)] + Buildings(n - 1)
  }

  /** Zones 0 to k-1 hang one below the next, and zones k to n are still buildings. */
  ghost predicate Chain(zones: seq<Zone>, k: nat, n: nat) {
    && |zones| == n + 1 && k <= n
    && (forall z :: 0 <= z < k ==> zones[z] == Zone(Floor, Some(z + 1), false, true))
    && (forall z :: k <= z <= n ==> zones[z] == BUILDING)
  }

  function Demotions(k: nat, n: nat): seq<Edit>
    requires k <= n
    decreases n - k
  {
    if k == n then [] else [Update(k, ZoneUpdate(Some(Floor), Some(Some(k + 1)), None, None), [])] + Demotions(k + 1, n)
  }

  function RowOfBuildings(n: nat): seq<Zone> {
    seq(n, _ => BUILDING)
  }

  lemma {:induction false} BuildingsRun(zones: seq<Zone>, n: nat, edits: seq<Edit>)
    ensures RunEdits(zones, Buildings(n) + edits) == RunEdits(zones + RowOfBuildings(n), edits)
    decreases n
  {
    if n == 0 {
      assert Buildings(0) + edits == edits && zones + RowOfBuildings(0) == zones;
    } else {
      assert (Buildings(n) + edits)[1..] == Buildings(n - 1) + edits;
      assert zones + [BUILDING] + RowOfBuildings(n - 1) == zones + RowOfBuildings(n);
      BuildingsRun(zones + [BUILDING], n - 1, edits);
    }
  }

  lemma {:induction false} DemotionsRun(zones: seq<Zone>, k: nat, n: nat)
    requires Chain(zones, k, n)
    ensures Chain(RunEdits(zones, Demotions(k, n)), n, n)
    decreases n - k
  {
    if k < n {
      var after := zones[k := Zone(Floor, Some(k + 1), false, true)];
      assert ExecEdit(zones, Demotions(k, n)[0]).Ok? && ExecEdit(zones, Demotions(k, n)[0]).value == after;
      assert Demotions(k, n)[1..] == Demotions(k + 1, n);
      DemotionsRun(after, k + 1, n);
    }
  }

  lemma {:induction false} ChainClimb(zones: seq<Zone>, n: nat, z: nat)
    requires Chain(zones, n, n) && z <= n
    ensures Climb(zones, Some(z), n - z) == Some(n)
    decreases n - z
  {
    if z < n {
      ChainClimb(zones, n, z + 1);
    }
  }

  /** Although a floor is only ever placed under a building, zones nest to any depth. */
  lemma DepthUnbounded(n: nat)
    ensures Climb(RunEdits([], Buildings(n + 1) + Demotions(0, n)), Some(0), n) == Some(n)
  {
    var row := RowOfBuildings(n + 1);
    BuildingsRun([], n + 1, Demotions(0, n));
    assert [] + row == row;
    DemotionsRun(row, 0, n);
    ChainClimb(RunEdits(row, Demotions(0, n)), n, 0);
  }

  // ----- the table -----

  /** The zone table as the service edits it, and the writes of the calls that have passed their checks. */
  class ZoneTable {
    const db: Database
    var zones: seq<Zone>
    var open: seq<Write>

    constructor (db: Database)
      ensures this.db == db && Valid() && View() == EMPTY
    {
      this.db := db;
      zones, open := [], [];
    }

    ghost function View(): Book
      reads this
    {
      Book(zones, open)
    }

    ghost predicate Valid()
      reads this
    {
      AllKnown(View())
    }

    method CheckCreate(kind: ZoneKind, parent: Option<Id>, requiresInspection: bool) returns (r: Result<()>)
      requires Valid()
      modifies this`open
      ensures Valid() && View() == Exec(old(View()), Check(Create(kind, parent, requiresInspection)))
      ensures r.Ok? <==> open != old(open)
      ensures r.Err? ==> r.error == ZoneParentInvalid
    {
      var error := ParentError(zones, kind, parent);
      if error.Some? {
        return Err(error.value);
      }
      open := open + [Insert(Zone(kind, parent, requiresInspection, true))];
      r := Ok(());
    }

    method CheckUpdate(id: Id, u: ZoneUpdate) returns (r: Result<()>)
      requires Valid()
      modifies this`open
      ensures Valid() && View() == Exec(old(View()), Check(Update(id, u, db.rooms)))
      ensures match CheckChange(zones, db.rooms, id, u)
        case Ok(_) => r == Ok(())
        case Err(e) => r == Err(e)
    {
      if id >= |zones| {
        return Err(ZoneNotFound);
      }
      if u.kind.Some? || u.parent.Some? {
        var kind, parent := Given(u.kind, zones[id].kind), Given(u.parent, zones[id].parent);
        if parent == Some(id) || ParentError(zones, kind, parent).Some? {
          return Err(ZoneParentInvalid);
        }
      }
      if u.active == Some(false) && (HasActiveRoom(db.rooms, id) || HasActiveChild(zones, id)) {
        return Err(ZoneInUse);
      }
      open := open + [Assign(id, u)];
      r := Ok(());
    }

    /** Logical delete: a zone with active rooms or children stays. */
    method CheckRemove(id: Id) returns (r: Result<()>)
      requires Valid()
      modifies this`open
      ensures Valid() && View() == Exec(old(View()), Check(Remove(id, db.rooms)))
      ensures r == if id >= |zones| then Err(ZoneNotFound)
                   else if HasActiveRoom(db.rooms, id) || HasActiveChild(zones, id) then Err(ZoneInUse) else Ok(())
    {
      if id >= |zones| {
        return Err(ZoneNotFound);
      }
      if HasActiveRoom(db.rooms, id) || HasActiveChild(zones, id) {
        return Err(ZoneInUse);
      }
      open := open + [Assign(id, DISABLE)];
      r := Ok(());
    }

    /** Writes the fields a call was given, whatever has become of the table since its check. */
    method WriteZone(k: nat)
      requires Valid() && k < |open|
      modifies this
      ensures Valid() && View() == Exec(old(View()), Land(k))
    {
      ExecKnows(View(), Land(k));
      match open[k] {
        case Insert(zone) =>
          zones := zones + [zone];
        case Assign(id, u) =>
          var zone := zones[id];
          if u.kind.Some? {
            zone := zone.(kind := u.kind.value);
          }
          if u.parent.Some? {
            zone := zone.(parent := u.parent.value);
          }
          if u.requiresInspection.Some? {
            zone := zone.(requiresInspection := u.requiresInspection.value);
          }
          if u.active.Some? {
            zone := zone.(active := u.active.value);
          }
          zones := zones[id := zone];
      }
      open := open[..k] + open[k + 1..];
    }
  }
}
