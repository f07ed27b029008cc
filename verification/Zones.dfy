/**
 * The zone hierarchy: a parent graph, walked down to find what a supervisor sees and up to find whether a room
 * needs inspection.
 */
module Zones {
  import opened Common

  datatype ZoneKind = Building | Floor | Area

  datatype Zone = Zone(kind: ZoneKind, parent: Option<Id>, requiresInspection: bool, active: bool)

  // ----- climbing -----

  /** The zone reached by climbing `n` parents from `z`; none once there is no zone. */
  function Climb(zones: seq<Zone>, z: Option<Id>, n: nat): (a: Option<Id>)
    ensures a.Some? ==> a.value < |zones|
    decreases n
  {
    if z.None? || z.value >= |zones| then None
    else if n == 0 then z
    else Climb(zones, zones[z.value].parent, n - 1)
  }

  /** `rank` puts every parent strictly below its children, so climbing never comes back. */
  ghost predicate Ranked(zones: seq<Zone>, rank: seq<int>) {
    && |rank| == |zones|
    && forall z :: 0 <= z < |zones| && zones[z].parent.Some? ==>
         zones[z].parent.value < |zones| && rank[zones[z].parent.value] < rank[z]
  }

  ghost predicate Acyclic(zones: seq<Zone>) {
    exists rank :: Ranked(zones, rank)
  }

  /** Only floors have parents. */
  ghost predicate OnlyFloorsNest(zones: seq<Zone>) {
    forall z :: 0 <= z < |zones| && zones[z].kind != Floor ==> zones[z].parent.None?
  }

  ghost predicate ZonesInv(zones: seq<Zone>) {
    Acyclic(zones) && OnlyFloorsNest(zones)
  }

  lemma {:induction false} ClimbAdds(zones: seq<Zone>, z: Option<Id>, m: nat, n: nat)
    ensures Climb(zones, z, m + n) == Climb(zones, Climb(zones, z, m), n)
    decreases m
  {
    if m > 0 && z.Some? && z.value < |zones| {
      ClimbAdds(zones, zones[z.value].parent, m - 1, n);
    }
  }

  lemma {:induction false} ClimbDescends(zones: seq<Zone>, rank: seq<int>, z: Id, n: nat)
    requires Ranked(zones, rank) && z < |zones| && Climb(zones, Some(z), n).Some?
    ensures rank[Climb(zones, Some(z), n).value] <= rank[z] - n
    decreases n
  {
    if n > 0 {
      ClimbDescends(zones, rank, zones[z].parent.value, n - 1);
    }
  }

  /** In a ranked graph no zone is its own ancestor. */
  lemma NoZoneAboveItself(zones: seq<Zone>, z: Id, n: nat)
    requires Acyclic(zones) && z < |zones| && n > 0
    ensures Climb(zones, Some(z), n) != Some(z)
  {
    var rank :| Ranked(zones, rank);
    if Climb(zones, Some(z), n) == Some(z) {
      ClimbDescends(zones, rank, z, n);
    }
  }

  // ----- walking up -----

  /** The room type, the zone or some ancestor of it asks for inspection. */
  ghost predicate InspectedAbove(zones: seq<Zone>, zone: Id) {
    exists n: nat :: Climb(zones, Some(zone), n).Some? && zones[Climb(zones, Some(zone), n).value].requiresInspection
  }

  /** Climbing `n` parents from `zone` runs out of zones, or meets one that asks for inspection. */
  predicate StopsAt(zones: seq<Zone>, zone: Id, n: nat) {
    var z := Climb(zones, Some(zone), n);
    z.None? || zones[z.value].requiresInspection
  }

  ghost predicate ClimbStops(zones: seq<Zone>, zone: Id) {
    exists n: nat :: StopsAt(zones, zone, n)
  }

  function Minimum(rank: seq<int>): int
    ensures forall z :: 0 <= z < |rank| ==> Minimum(rank) <= rank[z]
  {
    if rank == [] then 0
    else
      var m := Minimum(rank[1..]);
      assert forall z :: 0 < z < |rank| ==> rank[z] == rank[1..][z - 1];
      if rank[0] < m then rank[0] else m
  }

  /** Climbing an acyclic graph runs out of zones. */
  lemma AcyclicStops(zones: seq<Zone>, zone: Id)
    requires Acyclic(zones)
    ensures ClimbStops(zones, zone)
  {
    var rank :| Ranked(zones, rank);
    var n := if zone < |zones| then rank[zone] - Minimum(rank) + 1 else 0;
    if zone < |zones| && Climb(zones, Some(zone), n).Some? {
      ClimbDescends(zones, rank, zone, n);
    }
    assert StopsAt(zones, zone, n);
  }

  lemma {:induction false} ClimbEnds(zones: seq<Zone>, z: Option<Id>, m: nat, n: nat)
    requires m <= n && Climb(zones, z, m).None?
    ensures Climb(zones, z, n).None?
  {
    ClimbAdds(zones, z, m, n - m);
  }

  function ById(zones: seq<Zone>, z: Option<Id>): Option<Id> {
    if z.Some? && z.value < |zones| then z else None
  }

  /** Whether a room needs inspection. The loop ends exactly when climbing stops, as on an acyclic graph. */
  method InspectionRequired(zones: seq<Zone>, typeRequires: bool, zone: Id) returns (required: bool)
    requires typeRequires || ClimbStops(zones, zone)
    ensures required <==> typeRequires || InspectedAbove(zones, zone)
  {
    if typeRequires {
      return true;
    }
    ghost var last: nat :| StopsAt(zones, zone, last);
    ghost var n := 0;
    var current := ById(zones, Some(zone));
    while current.Some?
      invariant current == Climb(zones, Some(zone), n)
      invariant forall m: nat {:trigger Climb(zones, Some(zone), m)} :: m < n ==> !StopsAt(zones, zone, m)
      invariant n <= last
      decreases last - n
    {
      if zones[current.value].requiresInspection {
        return true;
      }
      assert !StopsAt(zones, zone, n);
      ClimbAdds(zones, Some(zone), n, 1);
      current := ById(zones, zones[current.value].parent);
      n := n + 1;
    }
    if InspectedAbove(zones, zone) {
      var m: nat :| Climb(zones, Some(zone), m).Some? && zones[Climb(zones, Some(zone), m).value].requiresInspection;
      if m >= n {
        ClimbEnds(zones, Some(zone), n, m);
      }
    }
    required := false;
  }

  // ----- walking down -----

  /** Climbing from `z` meets `a`. */
  ghost predicate Below(zones: seq<Zone>, z: Id, a: Id) {
    exists n: nat :: Climb(zones, Some(z), n) == Some(a)
  }

  /** `children` lists, by parent, the first `n` zones. */
  ghost predicate ListsChildren(zones: seq<Zone>, children: map<Option<Id>, seq<Id>>, n: nat)
    requires n <= |zones|
  {
    forall p: Option<Id>, z: Id {:trigger z in children[p]} {:trigger zones[z], p in children} ::
      (p in children && z in children[p]) <==> z < n && zones[z].parent == p
  }

  /** The children of each zone, in table order. */
  method ByParent(zones: seq<Zone>) returns (children: map<Option<Id>, seq<Id>>)
    ensures ListsChildren(zones, children, |zones|)
  {
    children := map[];
    for k := 0 to |zones|
      invariant ListsChildren(zones, children, k)
    {
      var key := zones[k].parent;
      children := children[key := Children(children, key) + [k]];
    }
  }

  function Children(children: map<Option<Id>, seq<Id>>, p: Option<Id>): seq<Id> {
    if p in children then children[p] else []
  }

  /** Whatever is in `part`, its children are in `all`. */
  ghost predicate ClosedIn(zones: seq<Zone>, part: set<Id>, all: set<Id>) {
    forall p, z :: p in part && 0 <= z < |zones| && zones[z].parent == Some(p) ==> z in all
  }

  ghost predicate Within(zones: seq<Zone>, ids: set<Id>) {
    forall z :: z in ids ==> z < |zones|
  }

  lemma {:induction false} SizeBound(ids: set<Id>, n: nat)
    requires forall z :: z in ids ==> z < n
    ensures |ids| <= n
  {
    if n == 0 {
      assert ids == {};
    } else {
      SizeBound(ids - {n - 1}, n - 1);
    }
  }

  /**
   * The depth-first walk from one zone. It terminates on any graph, cyclic or not: what it adds lies
   * below `id`, and every zone it adds has all its children visited when it returns.
   */
  method Walk(zones: seq<Zone>, children: map<Option<Id>, seq<Id>>, id: Id, visible: set<Id>) returns (after: set<Id>)
    requires ListsChildren(zones, children, |zones|)
    requires id < |zones| && Within(zones, visible)
    ensures visible <= after && id in after && Within(zones, after)
    ensures ClosedIn(zones, after - visible, after)
    ensures forall z :: z in after - visible ==> Below(zones, z, id)
    decreases |zones| - |visible|
  {
    if id in visible {
      return visible;
    }
    after := visible + {id};
    SizeBound(after, |zones|);
    assert Climb(zones, Some(id), 0) == Some(id);
    var list := Children(children, Some(id));
    for k := 0 to |list|
      invariant Walked(zones, visible, id, list[..k], after)
    {
      ghost var before := after;
      ListedChild(zones, children, id, list, k);
      Subset(visible + {id}, before);
      after := Walk(zones, children, list[k], after);
      WalkedOn(zones, visible, id, list[..k], list[k], before, after);
      assert list[..k + 1] == list[..k] + [list[k]];
    }
    assert list[..|list|] == list;
    WalkedAll(zones, children, visible, id, list, after);
  }

  /** The walk from `id` so far: it has visited `id` and all below the children in `done`. */
  ghost predicate Walked(zones: seq<Zone>, visible: set<Id>, id: Id, done: seq<Id>, after: set<Id>) {
    && visible + {id} <= after && Within(zones, after)
    && (forall z :: z in done ==> z in after)
    && ClosedIn(zones, after - visible - {id}, after)
    && (forall z :: z in after - visible ==> Below(zones, z, id))
  }

  lemma WalkedOn(zones: seq<Zone>, visible: set<Id>, id: Id, done: seq<Id>, child: Id, before: set<Id>, after: set<Id>)
    requires Walked(zones, visible, id, done, before)
    requires child < |zones| && id < |zones| && zones[child].parent == Some(id)
    requires before <= after && child in after && Within(zones, after)
    requires ClosedIn(zones, after - before, after)
    requires forall z :: z in after - before ==> Below(zones, z, child)
    ensures Walked(zones, visible, id, done + [child], after)
  {
    forall z | z in after - visible ensures Below(zones, z, id) {
      if z !in before {
        BelowChild(zones, z, child, id);
      }
    }
  }

  lemma WalkedAll(zones: seq<Zone>, children: map<Option<Id>, seq<Id>>, visible: set<Id>, id: Id, list: seq<Id>,
                  after: set<Id>)
    requires ListsChildren(zones, children, |zones|) && list == Children(children, Some(id))
    requires Walked(zones, visible, id, list, after)
    ensures ClosedIn(zones, after - visible, after)
  {
    forall p, z | p in after - visible && 0 <= z < |zones| && zones[z].parent == Some(p) ensures z in after {
      if p == id {
        assert Some(id) in children && z in children[Some(id)];
      }
    }
  }

  lemma ListedChild(zones: seq<Zone>, children: map<Option<Id>, seq<Id>>, p: Id, list: seq<Id>, k: nat)
    requires ListsChildren(zones, children, |zones|) && list == Children(children, Some(p)) && k < |list|
    ensures list[k] < |zones| && zones[list[k]].parent == Some(p)
  {
    assert Some(p) in children && list[k] in children[Some(p)];
  }

  lemma BelowChild(zones: seq<Zone>, z: Id, child: Id, a: Id)
    requires Below(zones, z, child) && child < |zones| && a < |zones| && zones[child].parent == Some(a)
    ensures Below(zones, z, a)
  {
    var n: nat :| Climb(zones, Some(z), n) == Some(child);
    ClimbAdds(zones, Some(z), n, 1);
    assert Climb(zones, Some(child), 1) == Climb(zones, Some(a), 0);
    assert Climb(zones, Some(z), n + 1) == Some(a);
  }

  lemma {:induction false} Subset(a: set<Id>, b: set<Id>)
    requires a <= b
    ensures |a| <= |b|
  {
    if a != {} {
      var x :| x in a;
      Subset(a - {x}, b - {x});
    }
  }

  lemma {:induction false} ClosedHoldsDescendants(zones: seq<Zone>, visible: set<Id>, z: Id, a: Id, n: nat)
    requires ClosedIn(zones, visible, visible) && a in visible
    requires Climb(zones, Some(z), n) == Some(a)
    ensures z in visible
    decreases n
  {
    if n > 0 {
      ClosedHoldsDescendants(zones, visible, zones[z].parent.value, a, n - 1);
    }
  }

  /** Climbing from `z` meets one of the given zones. */
  ghost predicate BelowSome(zones: seq<Zone>, z: Id, tops: seq<Id>) {
    exists k :: 0 <= k < |tops| && Below(zones, z, tops[k])
  }

  lemma BelowMore(zones: seq<Zone>, z: Id, tops: seq<Id>, k: nat)
    requires k < |tops| && (BelowSome(zones, z, tops[..k]) || Below(zones, z, tops[k]))
    ensures BelowSome(zones, z, tops[..k + 1])
  {
    if BelowSome(zones, z, tops[..k]) {
      var j :| 0 <= j < k && Below(zones, z, tops[..k][j]);
      assert Below(zones, z, tops[..k + 1][j]);
    } else {
      assert Below(zones, z, tops[..k + 1][k]);
    }
  }

  /** `visible` holds the given zones and what lies below them, children included, and nothing else. */
  ghost predicate Sees(zones: seq<Zone>, tops: seq<Id>, visible: set<Id>) {
    && Within(zones, visible)
    && ClosedIn(zones, visible, visible)
    && (forall t :: t in tops ==> t in visible)
    && (forall z :: z in visible ==> BelowSome(zones, z, tops))
  }

  lemma SeesMore(zones: seq<Zone>, tops: seq<Id>, k: nat, before: set<Id>, after: set<Id>)
    requires k < |tops| && Sees(zones, tops[..k], before)
    requires before <= after && tops[k] in after && Within(zones, after) && ClosedIn(zones, after - before, after)
    requires forall z :: z in after - before ==> Below(zones, z, tops[k])
    ensures Sees(zones, tops[..k + 1], after)
  {
    forall z | z in after ensures BelowSome(zones, z, tops[..k + 1]) {
      BelowMore(zones, z, tops, k);
    }
    assert tops[..k + 1] == tops[..k] + [tops[k]];
  }

  lemma SeesExactly(zones: seq<Zone>, tops: seq<Id>, visible: set<Id>)
    requires Sees(zones, tops, visible)
    ensures forall z :: z in visible <==> BelowSome(zones, z, tops)
  {
    forall z | BelowSome(zones, z, tops) ensures z in visible {
      var k :| 0 <= k < |tops| && Below(zones, z, tops[k]);
      assert tops[k] in tops;
      var n: nat :| Climb(zones, Some(z), n) == Some(tops[k]);
      ClosedHoldsDescendants(zones, visible, z, tops[k], n);
    }
  }

  /** The zones a supervisor of area scope sees: those from which climbing meets an assigned zone. */
  method VisibleZoneIds(zones: seq<Zone>, supervised: seq<Id>) returns (visible: set<Id>)
    requires forall k :: 0 <= k < |supervised| ==> supervised[k] < |zones|
    ensures forall z :: z in visible <==> BelowSome(zones, z, supervised)
  {
    var children := ByParent(zones);
    visible := {};
    for k := 0 to |supervised|
      invariant Sees(zones, supervised[..k], visible)
    {
      var after := Walk(zones, children, supervised[k], visible);
      SeesMore(zones, supervised, k, visible, after);
      visible := after;
    }
    assert supervised[..|supervised|] == supervised;
    SeesExactly(zones, supervised, visible);
  }
}
