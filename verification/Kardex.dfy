/** The rules of the warehouse ledger, the stock it implies, and its comparison with the stock table. */
module Kardex {
  import opened Common
  import opened Stock

  datatype MovementType =
    | InitialLoad | Inbound | Transfer | RoomConsumption | LinenExchange | AdjustIn | AdjustOut | WriteOff

  datatype MovementStatus = PendingApproval | Active | Cancelled

  /** Sign applied at the source warehouse (-1 or 0) and at the target warehouse (1 or 0). */
  datatype Deltas = Deltas(source: int, target: int)

  function LedgerDeltas(kind: MovementType): Deltas {
    match kind
    case InitialLoad | Inbound | AdjustIn => Deltas(0, 1)
    case Transfer | LinenExchange => Deltas(-1, 1)
    case RoomConsumption | AdjustOut | WriteOff => Deltas(-1, 0)
  }

  function InvertDeltas(d: Deltas): Deltas {
    Deltas(if d.source == -1 then 1 else 0, if d.target == 1 then -1 else 0)
  }

  predicate IsCancellable(kind: MovementType) {
    kind != RoomConsumption && kind != LinenExchange
  }

  datatype Line = Line(
    product: Id, quantity: int, unitCost: Option<int>, fromLocation: Option<Id>, toLocation: Option<Id>)

  datatype Movement = Movement(
    kind: MovementType, status: MovementStatus, source: Option<Id>, target: Option<Id>, room: Option<Id>,
    reason: Option<Id>, requestId: Option<Id>, stocktake: Option<Id>, createdAt: int, lines: seq<Line>)

  /** What a line takes out of its source position. */
  function TakeOut(m: Movement, l: Line): seq<Move> {
    if LedgerDeltas(m.kind).source != 0 && m.source.Some? && l.fromLocation.Some? then
      [Move(Pos(l.product, m.source.value, l.fromLocation.value), LedgerDeltas(m.kind).source * l.quantity)]
    else []
  }

  /** What a line puts into its target position. */
  function PutIn(m: Movement, l: Line): seq<Move> {
    if LedgerDeltas(m.kind).target != 0 && m.target.Some? && l.toLocation.Some? then
      [Move(Pos(l.product, m.target.value, l.toLocation.value), LedgerDeltas(m.kind).target * l.quantity)]
    else []
  }

  function MovesOfLines(m: Movement, lines: seq<Line>): seq<Move> {
    if lines == [] then []
    else TakeOut(m, lines[0]) + PutIn(m, lines[0]) + MovesOfLines(m, lines[1..])
  }

  function MovesOf(m: Movement): seq<Move> {
    MovesOfLines(m, m.lines)
  }

  /** Signed sum of the lines of the given movements at one position. */
  function LedgerNet(movements: seq<Movement>, p: Pos): int {
    if movements == [] then 0 else Net(MovesOf(movements[0]), p) + LedgerNet(movements[1..], p)
  }

  /** The position appears on some line, even if its sum is zero. */
  predicate Touched(movements: seq<Movement>, p: Pos) {
    movements != [] && (TouchedBy(MovesOf(movements[0]), p) || Touched(movements[1..], p))
  }

  predicate TouchedBy(moves: seq<Move>, p: Pos) {
    moves != [] && (moves[0].pos == p || TouchedBy(moves[1..], p))
  }

  function Lookup(m: map<Pos, int>, p: Pos): int {
    if p in m then m[p] else 0
  }

  // ----- expected stock -----

  lemma {:induction false} TouchedBySplit(a: seq<Move>, b: seq<Move>, p: Pos)
    ensures TouchedBy(a + b, p) <==> TouchedBy(a, p) || TouchedBy(b, p)
  {
    if a == [] {
      assert a + b == b;
    } else {
      TouchedBySplit(a[1..], b, p);
      assert (a + b)[1..] == a[1..] + b;
    }
  }

  /** The accumulator `out` and the moves still to come add up to the moves of `all`. */
  ghost predicate Accumulates(out: map<Pos, int>, rest: seq<Move>, restMovements: seq<Movement>, all: seq<Movement>) {
    forall p ::
      && Lookup(out, p) + Net(rest, p) + LedgerNet(restMovements, p) == LedgerNet(all, p)
      && (p in out || TouchedBy(rest, p) || Touched(restMovements, p) <==> Touched(all, p))
  }

  /** One addition to the accumulator of `expectedStock`. */
  method Add(out: map<Pos, int>, moves: seq<Move>, ghost rest: seq<Move>, ghost restMovements: seq<Movement>,
             ghost all: seq<Movement>)
    returns (out': map<Pos, int>)
    requires |moves| <= 1 && Accumulates(out, moves + rest, restMovements, all)
    ensures Accumulates(out', rest, restMovements, all)
  {
    out' := out;
    if moves != [] {
      var m := moves[0];
      out' := out[m.pos := Lookup(out, m.pos) + m.delta];
      assert (moves + rest)[1..] == rest;
    } else {
      assert moves + rest == rest;
    }
  }

  /** Expected stock per position: the signed sum of the movement lines, in whatever order they come. */
  method ExpectedStock(movements: seq<Movement>) returns (out: map<Pos, int>)
    ensures forall p :: Lookup(out, p) == LedgerNet(movements, p)
    ensures forall p :: p in out <==> Touched(movements, p)
  {
    out := map[];
    for i := 0 to |movements|
      invariant Accumulates(out, [], movements[i..], movements)
    {
      var m := movements[i];
      assert movements[i..][1..] == movements[i + 1..];
      for j := 0 to |m.lines|
        invariant Accumulates(out, MovesOfLines(m, m.lines[j..]), movements[i + 1..], movements)
      {
        var line := m.lines[j];
        ghost var rest := MovesOfLines(m, m.lines[j + 1..]);
        assert m.lines[j..][1..] == m.lines[j + 1..];
        assert TakeOut(m, line) + PutIn(m, line) + rest == TakeOut(m, line) + (PutIn(m, line) + rest);
        out := Add(out, TakeOut(m, line), PutIn(m, line) + rest, movements[i + 1..], movements);
        out := Add(out, PutIn(m, line), rest, movements[i + 1..], movements);
      }
    }
  }

  lemma {:induction false} LedgerNetSplit(a: seq<Movement>, b: seq<Movement>, p: Pos)
    ensures LedgerNet(a + b, p) == LedgerNet(a, p) + LedgerNet(b, p)
  {
    if a == [] {
      assert a + b == b;
    } else {
      var all, tail := a + b, a[1..] + b;
      assert all[1..] == tail && all[0] == a[0];
      LedgerNetSplit(a[1..], b, p);
      LedgerNetFirst(a, a[0], a[1..], p);
      LedgerNetFirst(all, a[0], tail, p);
    }
  }

  lemma LedgerNetFirst(movements: seq<Movement>, first: Movement, rest: seq<Movement>, p: Pos)
    requires movements != [] && first == movements[0] && rest == movements[1..]
    ensures LedgerNet(movements, p) == Net(MovesOf(first), p) + LedgerNet(rest, p)
  {
  }

  /** Two listings of the same items: the first item of one is somewhere in the other. */
  lemma Pick<T>(a: seq<T>, b: seq<T>) returns (i: nat)
    requires a != [] && multiset(a) == multiset(b)
    ensures i < |b| && b[i] == a[0]
    ensures multiset(a[1..]) == multiset(b[..i] + b[i + 1..])
  {
    i := IndexIn(b, a[0]) by {
      assert a[0] in multiset(a);
    }
    WithoutOne(b, i);
    assert a == [a[0]] + a[1..];
  }

  lemma IndexIn<T>(s: seq<T>, x: T) returns (i: nat)
    requires x in multiset(s)
    ensures i < |s| && s[i] == x
  {
    i :| 0 <= i < |s| && s[i] == x;
  }

  lemma WithoutOne<T>(s: seq<T>, i: nat)
    requires i < |s|
    ensures multiset(s[..i] + s[i + 1..]) == multiset(s) - multiset{s[i]}
  {
    assert s == s[..i] + [s[i]] + s[i + 1..];
  }

  /** Expected stock does not depend on the order in which the database lists the movements. */
  lemma {:induction false} LedgerNetUnordered(a: seq<Movement>, b: seq<Movement>, p: Pos)
    requires multiset(a) == multiset(b)
    ensures LedgerNet(a, p) == LedgerNet(b, p)
  {
    if a == [] {
      assert |multiset(b)| == 0;
    } else {
      var i := Pick(a, b);
      LedgerNetUnordered(a[1..], b[..i] + b[i + 1..], p);
      LedgerNetWithout(b, i, p);
    }
  }

  lemma LedgerNetWithout(movements: seq<Movement>, i: nat, p: Pos)
    requires i < |movements|
    ensures LedgerNet(movements, p)
         == LedgerNet(movements[..i] + movements[i + 1..], p) + Net(MovesOf(movements[i]), p)
  {
    var before, after := movements[..i], movements[i + 1..];
    assert movements == before + ([movements[i]] + after);
    LedgerNetSplit(before, [movements[i]] + after, p);
    LedgerNetSplit(before, after, p);
    assert ([movements[i]] + after)[1..] == after;
  }

  // ----- reconciliation -----

  datatype Difference = Difference(pos: Pos, quantity: int, expected: int, difference: int)

  /** The stock rows by position; were a position to come twice, the last row would win. */
  function ByPosition(rows: seq<Row>): map<Pos, int> {
    if rows == [] then map[]
    else ByPosition(rows[..|rows| - 1])[rows[|rows| - 1].pos := rows[|rows| - 1].quantity]
  }

  lemma {:induction false} ByPositionQty(rows: seq<Row>, p: Pos)
    requires Unique(rows)
    ensures Lookup(ByPosition(rows), p) == Qty(rows, p)
  {
    if rows == [] {
    } else {
      var n := |rows| - 1;
      ByPositionQty(rows[..n], p);
      assert rows == rows[..n] + [rows[n]];
      if p == rows[n].pos {
        QtyOfRow(rows, n);
      } else {
        QtyDropLast(rows[..n], rows[n], p);
      }
    }
  }

  lemma {:induction false} QtyDropLast(rows: seq<Row>, last: Row, p: Pos)
    requires last.pos != p
    ensures Qty(rows + [last], p) == Qty(rows, p)
  {
    if rows != [] {
      QtyDropLast(rows[1..], last, p);
      assert (rows + [last])[1..] == rows[1..] + [last];
    }
  }

  ghost predicate Reported(diffs: seq<Difference>, p: Pos) {
    exists i :: 0 <= i < |diffs| && diffs[i].pos == p
  }

  ghost predicate Truthful(d: Difference, actual: map<Pos, int>, expected: map<Pos, int>) {
    && d.quantity == Lookup(actual, d.pos)
    && d.expected == Lookup(expected, d.pos)
    && d.difference == d.quantity - d.expected != 0
  }

  lemma ReportedAlso(diffs: seq<Difference>, d: Difference)
    ensures forall p :: Reported(diffs + [d], p) <==> Reported(diffs, p) || p == d.pos
  {
    forall p ensures Reported(diffs + [d], p) <==> Reported(diffs, p) || p == d.pos {
      assert (diffs + [d])[|diffs|] == d;
      if Reported(diffs, p) {
        var i :| 0 <= i < |diffs| && diffs[i].pos == p;
        assert (diffs + [d])[i].pos == p;
      }
    }
  }

  /**
   * The positions where the stock table and the ledger disagree: each once, no other, with both
   * quantities; a position missing on one side counts as zero there.
   */
  method DiffStock(rows: seq<Row>, expected: map<Pos, int>) returns (diffs: seq<Difference>)
    ensures forall i :: 0 <= i < |diffs| ==> Truthful(diffs[i], ByPosition(rows), expected)
    ensures forall i, j :: 0 <= i < j < |diffs| ==> diffs[i].pos != diffs[j].pos
    ensures forall p :: Reported(diffs, p) <==> Lookup(ByPosition(rows), p) != Lookup(expected, p)
  {
    diffs := Differences(ByPosition(rows), expected);
  }

  /** Compares two position maps key by key, in any order. */
  method Differences(actual: map<Pos, int>, expected: map<Pos, int>) returns (diffs: seq<Difference>)
    ensures Compared(diffs, {}, actual, expected)
    ensures forall p :: Reported(diffs, p) <==> Lookup(actual, p) != Lookup(expected, p)
  {
    var keys := actual.Keys + expected.Keys;
    diffs := [];
    NothingCompared(actual, expected);
    while keys != {}
      invariant Compared(diffs, keys, actual, expected)
      decreases |keys|
    {
      var p :| p in keys;
      ComparedNext(diffs, keys, actual, expected, p);
      keys := keys - {p};
      var a, e := Lookup(actual, p), Lookup(expected, p);
      if a != e {
        diffs := diffs + [Difference(p, a, e, a - e)];
      }
    }
    AllCompared(diffs, actual, expected);
  }

  /** What holds of the differences found when only `keys` are still to be compared. */
  ghost predicate Compared(diffs: seq<Difference>, keys: set<Pos>, actual: map<Pos, int>, expected: map<Pos, int>) {
    && (forall i :: 0 <= i < |diffs| ==> Truthful(diffs[i], actual, expected) && diffs[i].pos !in keys)
    && (forall i, j :: 0 <= i < j < |diffs| ==> diffs[i].pos != diffs[j].pos)
    && (forall p :: Lookup(actual, p) != Lookup(expected, p) ==> p in keys || Reported(diffs, p))
  }

  lemma NothingCompared(actual: map<Pos, int>, expected: map<Pos, int>)
    ensures Compared([], actual.Keys + expected.Keys, actual, expected)
  {
  }

  lemma AllCompared(diffs: seq<Difference>, actual: map<Pos, int>, expected: map<Pos, int>)
    requires Compared(diffs, {}, actual, expected)
    ensures forall i :: 0 <= i < |diffs| ==> Truthful(diffs[i], actual, expected)
    ensures forall i, j :: 0 <= i < j < |diffs| ==> diffs[i].pos != diffs[j].pos
    ensures forall p :: Reported(diffs, p) <==> Lookup(actual, p) != Lookup(expected, p)
  {
  }

  lemma ComparedNext(diffs: seq<Difference>, keys: set<Pos>, actual: map<Pos, int>, expected: map<Pos, int>, p: Pos)
    requires Compared(diffs, keys, actual, expected) && p in keys
    ensures var a, e := Lookup(actual, p), Lookup(expected, p);
      Compared(if a != e then diffs + [Difference(p, a, e, a - e)] else diffs, keys - {p}, actual, expected)
  {
    var a, e := Lookup(actual, p), Lookup(expected, p);
    if a != e {
      ReportedAlso(diffs, Difference(p, a, e, a - e));
    }
  }

  // ----- rules on requests -----

  datatype LineInput = LineInput(
    product: Id, quantity: int, unitCost: Option<int>, fromLocation: Option<Id>, toLocation: Option<Id>)

  datatype MovementInput = MovementInput(
    kind: MovementType, source: Option<Id>, target: Option<Id>, room: Option<Id>, reason: Option<Id>,
    stocktake: Option<Id>, skipApproval: bool, lines: seq<LineInput>)

  predicate PositiveQuantities(lines: seq<LineInput>) {
    forall i :: 0 <= i < |lines| ==> lines[i].quantity > 0
  }

  /** The shape of a request, checked before any stock is read; the first failing rule answers. */
  function MovementShapeError(i: MovementInput): Option<Error> {
    var d := LedgerDeltas(i.kind);
    if i.lines == [] then Some(MovementLinesRequired)
    else if !PositiveQuantities(i.lines) then Some(QuantityInvalid)
    else if d.source != 0 && i.source.None? then Some(MovementSourceRequired)
    else if d.target != 0 && i.target.None? then Some(MovementTargetRequired)
    else if d.source == 0 && i.source.Some? then Some(MovementSourceNotAllowed)
    else if d.target == 0 && i.target.Some? then Some(MovementTargetNotAllowed)
    else if i.kind != Transfer && i.kind != LinenExchange && i.source.Some? && i.source == i.target then
      Some(MovementSameWarehouse)
    else if (i.kind == RoomConsumption || i.kind == LinenExchange) && i.room.None? then Some(RoomRequired)
    else if (i.kind == AdjustIn || i.kind == AdjustOut || i.kind == WriteOff) && i.reason.None? then
      Some(MovementReasonRequired)
    else None
  }

  datatype Thresholds = Thresholds(quantity: int, cost: int)

  /** Strictly above either limit needs approval. */
  predicate NeedsApproval(quantity: int, cost: int, limits: Thresholds) {
    quantity > limits.quantity || cost > limits.cost
  }
}
