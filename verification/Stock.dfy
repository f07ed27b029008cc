/**
 * The materialized stock table and the only way it is written: one signed move at a time, where a
 * move that takes out is refused unless the row covers it.
 */
module Stock {
  import opened Common

  datatype Pos = Pos(product: Id, warehouse: Id, location: Id)

  datatype Row = Row(pos: Pos, quantity: int)

  datatype Move = Move(pos: Pos, delta: int)

  /** Quantity on the row of `p`; a missing row counts as zero. */
  function Qty(rows: seq<Row>, p: Pos): int {
    if rows == [] then 0
    else if rows[0].pos == p then rows[0].quantity
    else Qty(rows[1..], p)
  }

  ghost predicate Unique(rows: seq<Row>) {
    forall i, j :: 0 <= i < j < |rows| ==> rows[i].pos != rows[j].pos
  }

  ghost predicate NonNegative(rows: seq<Row>) {
    forall i :: 0 <= i < |rows| ==> rows[i].quantity >= 0
  }

  /** Adds `delta` to the row of `p`, creating the row at the end of the table when there is none. */
  function Upsert(rows: seq<Row>, p: Pos, delta: int): seq<Row> {
    if rows == [] then [Row(p, delta)]
    else if rows[0].pos == p then [Row(p, rows[0].quantity + delta)] + rows[1..]
    else [rows[0]] + Upsert(rows[1..], p, delta)
  }

  function TryMove(rows: seq<Row>, m: Move): Result<seq<Row>> {
    var available := Qty(rows, m.pos);
    if m.delta < 0 && available < -m.delta then
      Err(StockInsufficient(m.pos.product, available, -m.delta))
    else
      Ok(Upsert(rows, m.pos, m.delta))
  }

  /** The moves one after the other; the first refusal refuses them all. */
  function ApplyMoves(rows: seq<Row>, moves: seq<Move>): Result<seq<Row>>
    decreases |moves|
  {
    if moves == [] then Ok(rows)
    else
      var rest :- TryMove(rows, moves[0]);
      ApplyMoves(rest, moves[1..])
  }

  function At(m: Move, p: Pos): int {
    if m.pos == p then m.delta else 0
  }

  /** What the moves add to one position, order aside. */
  function Net(moves: seq<Move>, p: Pos): int {
    if moves == [] then 0 else At(moves[0], p) + Net(moves[1..], p)
  }

  /** Stock of one product over the whole hotel. */
  function Total(rows: seq<Row>, product: Id): int {
    if rows == [] then 0
    else (if rows[0].pos.product == product then rows[0].quantity else 0) + Total(rows[1..], product)
  }

  function NetProduct(moves: seq<Move>, product: Id): int {
    if moves == [] then 0
    else (if moves[0].pos.product == product then moves[0].delta else 0) + NetProduct(moves[1..], product)
  }

  function Negate(moves: seq<Move>): seq<Move> {
    if moves == [] then [] else [Move(moves[0].pos, -moves[0].delta)] + Negate(moves[1..])
  }

  /** No position is both taken from and put into. */
  ghost predicate Unmixed(moves: seq<Move>) {
    forall i, j :: 0 <= i < |moves| && 0 <= j < |moves| && moves[i].pos == moves[j].pos
      ==> (moves[i].delta < 0 <==> moves[j].delta < 0)
  }

  // ----- one move -----

  lemma {:induction false} QtyUpsert(rows: seq<Row>, p: Pos, delta: int, q: Pos)
    ensures Qty(Upsert(rows, p, delta), q) == Qty(rows, q) + At(Move(p, delta), q)
  {
    if rows != [] && rows[0].pos != p {
      QtyUpsert(rows[1..], p, delta, q);
      assert Upsert(rows, p, delta)[1..] == Upsert(rows[1..], p, delta);
    } else if rows != [] {
      assert Upsert(rows, p, delta)[1..] == rows[1..];
    }
  }

  /** Rows of other positions are passed over. */
  lemma {:induction false} UpsertFrom(rows: seq<Row>, k: nat, p: Pos, delta: int)
    requires k <= |rows| && forall i :: 0 <= i < k ==> rows[i].pos != p
    ensures Qty(rows, p) == Qty(rows[k..], p)
    ensures Upsert(rows, p, delta) == rows[..k] + Upsert(rows[k..], p, delta)
  {
    if k == 0 {
      assert rows[0..] == rows && rows[..0] == [];
    } else {
      UpsertFrom(rows[1..], k - 1, p, delta);
      assert rows[1..][k - 1..] == rows[k..] && rows[..k] == [rows[0]] + rows[1..][..k - 1];
    }
  }

  lemma {:induction false} TotalUpsert(rows: seq<Row>, p: Pos, delta: int, product: Id)
    ensures Total(Upsert(rows, p, delta), product)
         == Total(rows, product) + if p.product == product then delta else 0
  {
    if rows != [] && rows[0].pos != p {
      TotalUpsert(rows[1..], p, delta, product);
      assert Upsert(rows, p, delta)[1..] == Upsert(rows[1..], p, delta);
    } else if rows != [] {
      assert Upsert(rows, p, delta)[1..] == rows[1..];
    }
  }

  lemma {:induction false} QtyNonNegative(rows: seq<Row>, p: Pos)
    requires NonNegative(rows)
    ensures Qty(rows, p) >= 0
  {
    if rows != [] && rows[0].pos != p {
      QtyNonNegative(rows[1..], p);
    }
  }

  /** The stock of a row of a table with unique positions is that row's quantity. */
  lemma {:induction false} QtyOfRow(rows: seq<Row>, i: nat)
    requires i < |rows| && Unique(rows)
    ensures Qty(rows, rows[i].pos) == rows[i].quantity
  {
    if i > 0 {
      assert rows[0].pos != rows[i].pos;
      QtyOfRow(rows[1..], i - 1);
    }
  }

  lemma {:induction false} QtyAbsent(rows: seq<Row>, p: Pos)
    requires forall i :: 0 <= i < |rows| ==> rows[i].pos != p
    ensures Qty(rows, p) == 0
  {
    if rows != [] {
      QtyAbsent(rows[1..], p);
    }
  }

  lemma {:induction false} UpsertKeepsUnique(rows: seq<Row>, p: Pos, delta: int)
    requires Unique(rows)
    ensures Unique(Upsert(rows, p, delta))
    ensures forall i :: 0 <= i < |Upsert(rows, p, delta)| ==>
              Upsert(rows, p, delta)[i].pos == p
              || (i < |rows| && Upsert(rows, p, delta)[i].pos == rows[i].pos)
  {
    if rows != [] && rows[0].pos != p {
      UpsertKeepsUnique(rows[1..], p, delta);
    }
  }

  lemma {:induction false} UpsertKeepsNonNegative(rows: seq<Row>, p: Pos, delta: int)
    requires NonNegative(rows) && Qty(rows, p) + delta >= 0
    ensures NonNegative(Upsert(rows, p, delta))
  {
    if rows != [] && rows[0].pos != p {
      UpsertKeepsNonNegative(rows[1..], p, delta);
    }
  }

  // ----- a whole movement -----

  /** An accepted sequence of moves adds exactly its net at every position and for every product. */
  lemma {:induction false} ApplyMovesNet(rows: seq<Row>, moves: seq<Move>)
    requires ApplyMoves(rows, moves).Ok?
    ensures forall p :: Qty(ApplyMoves(rows, moves).value, p) == Qty(rows, p) + Net(moves, p)
    ensures forall product :: Total(ApplyMoves(rows, moves).value, product)
                           == Total(rows, product) + NetProduct(moves, product)
    decreases |moves|
  {
    if moves != [] {
      var rest := TryMove(rows, moves[0]).value;
      ApplyMovesNet(rest, moves[1..]);
      forall p {
        QtyUpsert(rows, moves[0].pos, moves[0].delta, p);
      }
      forall product {
        TotalUpsert(rows, moves[0].pos, moves[0].delta, product);
      }
    }
  }

  /** Stock never goes negative and no position gets a second row. */
  lemma {:induction false} ApplyMovesSafe(rows: seq<Row>, moves: seq<Move>)
    requires Unique(rows) && NonNegative(rows) && ApplyMoves(rows, moves).Ok?
    ensures Unique(ApplyMoves(rows, moves).value) && NonNegative(ApplyMoves(rows, moves).value)
    decreases |moves|
  {
    if moves != [] {
      QtyNonNegative(rows, moves[0].pos);
      UpsertKeepsUnique(rows, moves[0].pos, moves[0].delta);
      UpsertKeepsNonNegative(rows, moves[0].pos, moves[0].delta);
      ApplyMovesSafe(TryMove(rows, moves[0]).value, moves[1..]);
    }
  }

  /** When the move at index `k` is reached it is covered by the stock and the moves up to it. */
  ghost predicate Covered(rows: seq<Row>, moves: seq<Move>, k: nat)
    requires k < |moves|
  {
    moves[k].delta < 0 ==> Qty(rows, moves[k].pos) + Net(moves[..k + 1], moves[k].pos) >= 0
  }

  /** The guard, looked at line by line, accepts exactly when every prefix is covered. */
  lemma {:induction false} ApplyMovesAccepts(rows: seq<Row>, moves: seq<Move>)
    ensures ApplyMoves(rows, moves).Ok? <==> forall k :: 0 <= k < |moves| ==> Covered(rows, moves, k)
    decreases |moves|
  {
    if moves != [] {
      var m, tail := moves[0], moves[1..];
      assert moves[..1] == [m];
      assert Net(moves[..1], m.pos) == m.delta + Net([], m.pos);
      if TryMove(rows, m).Ok? {
        var rest := TryMove(rows, m).value;
        ApplyMovesAccepts(rest, tail);
        forall k | 0 <= k < |tail|
          ensures Covered(rest, tail, k) <==> Covered(rows, moves, k + 1)
        {
          QtyUpsert(rows, m.pos, m.delta, tail[k].pos);
          assert moves[..k + 2][1..] == tail[..k + 1];
        }
        assert Covered(rows, moves, 0);
        forall k | 0 < k < |moves|
          ensures Covered(rows, moves, k) <==> Covered(rest, tail, k - 1)
        {
        }
        if forall k :: 0 <= k < |moves| ==> Covered(rows, moves, k) {
          forall k | 0 <= k < |tail| ensures Covered(rest, tail, k) {
            assert Covered(rows, moves, k + 1);
          }
        }
      } else {
        assert !Covered(rows, moves, 0);
      }
    }
  }

  lemma {:induction false} NetSplit(a: seq<Move>, b: seq<Move>, p: Pos)
    ensures Net(a + b, p) == Net(a, p) + Net(b, p)
  {
    if a == [] {
      assert a + b == b;
    } else {
      NetSplit(a[1..], b, p);
      assert (a + b)[1..] == a[1..] + b;
    }
  }

  lemma {:induction false} NetProductSplit(a: seq<Move>, b: seq<Move>, product: Id)
    ensures NetProduct(a + b, product) == NetProduct(a, product) + NetProduct(b, product)
  {
    if a == [] {
      assert a + b == b;
    } else {
      NetProductSplit(a[1..], b, product);
      assert (a + b)[1..] == a[1..] + b;
    }
  }

  lemma {:induction false} NetAtMostZero(moves: seq<Move>, p: Pos)
    requires forall i :: 0 <= i < |moves| && moves[i].pos == p ==> moves[i].delta <= 0
    ensures Net(moves, p) <= 0
  {
    if moves != [] {
      NetAtMostZero(moves[1..], p);
    }
  }

  /** At every position the sum of all the moves is covered. */
  ghost predicate CoveredInSum(rows: seq<Row>, moves: seq<Move>) {
    forall p :: Qty(rows, p) + Net(moves, p) >= 0
  }

  /**
   * When no position is both taken from and put into, the line-by-line guard accepts exactly when
   * at every position the sum of all the moves is covered, repeated products included.
   */
  lemma UnmixedAccepts(rows: seq<Row>, moves: seq<Move>)
    requires Unique(rows) && NonNegative(rows) && Unmixed(moves)
    ensures ApplyMoves(rows, moves).Ok? <==> CoveredInSum(rows, moves)
  {
    ApplyMovesAccepts(rows, moves);
    if ApplyMoves(rows, moves).Ok? {
      ApplyMovesNet(rows, moves);
      ApplyMovesSafe(rows, moves);
      forall p ensures Qty(rows, p) + Net(moves, p) >= 0 {
        QtyNonNegative(ApplyMoves(rows, moves).value, p);
      }
    }
    if CoveredInSum(rows, moves) {
      forall k | 0 <= k < |moves| ensures Covered(rows, moves, k) {
        if moves[k].delta < 0 {
          var p := moves[k].pos;
          assert moves == moves[..k + 1] + moves[k + 1..];
          NetSplit(moves[..k + 1], moves[k + 1..], p);
          NetAtMostZero(moves[k + 1..], p);
          assert Qty(rows, p) + Net(moves, p) >= 0;
        }
      }
    }
  }

  // ----- taking a movement back -----

  lemma {:induction false} NegateNet(moves: seq<Move>)
    ensures |Negate(moves)| == |moves|
    ensures forall i :: 0 <= i < |moves| ==> Negate(moves)[i] == Move(moves[i].pos, -moves[i].delta)
    ensures forall p :: Net(Negate(moves), p) == -Net(moves, p)
    ensures forall product :: NetProduct(Negate(moves), product) == -NetProduct(moves, product)
  {
    if moves != [] {
      NegateNet(moves[1..]);
    }
  }

  lemma {:induction false} NegatedPrefixNet(moves: seq<Move>, k: nat, p: Pos)
    requires k <= |moves| == |Negate(moves)|
    ensures Net(Negate(moves)[..k], p) == -Net(moves[..k], p)
  {
    if k > 0 {
      var tail, back := moves[1..], Negate(moves);
      NegateNet(tail);
      NegatedPrefixNet(tail, k - 1, p);
      assert back[1..] == Negate(tail);
      assert back[..k][1..] == Negate(tail)[..k - 1] && moves[..k][1..] == tail[..k - 1];
    }
  }

  /** What was there before the movement and what its later moves did there cover taking put `k` back. */
  ghost predicate PutStillThere(rows: seq<Row>, moves: seq<Move>, k: nat)
    requires k < |moves|
  {
    moves[k].delta > 0 ==> Qty(rows, moves[k].pos) + Net(moves[k + 1..], moves[k].pos) >= 0
  }

  lemma UndoCovered(rows: seq<Row>, moves: seq<Move>, k: nat)
    requires ApplyMoves(rows, moves).Ok? && k < |moves| == |Negate(moves)|
    ensures Covered(ApplyMoves(rows, moves).value, Negate(moves), k) <==> PutStillThere(rows, moves, k)
  {
    var p := moves[k].pos;
    assert Qty(ApplyMoves(rows, moves).value, p) == Qty(rows, p) + Net(moves, p) by {
      ApplyMovesNet(rows, moves);
    }
    assert Negate(moves)[k] == Move(p, -moves[k].delta) by {
      NegateNet(moves);
    }
    NegatedPrefixNet(moves, k + 1, p);
    assert Net(moves, p) == Net(moves[..k + 1], p) + Net(moves[k + 1..], p) by {
      assert moves == moves[..k + 1] + moves[k + 1..];
      NetSplit(moves[..k + 1], moves[k + 1..], p);
    }
  }

  /**
   * A movement applied and at once taken back in the same line order is taken back exactly when,
   * for every put, the stock there before the movement and the later moves there cover it.
   */
  lemma UndoAccepts(rows: seq<Row>, moves: seq<Move>)
    requires ApplyMoves(rows, moves).Ok?
    ensures ApplyMoves(ApplyMoves(rows, moves).value, Negate(moves)).Ok?
       <==> forall k :: 0 <= k < |moves| ==> PutStillThere(rows, moves, k)
  {
    var after, back := ApplyMoves(rows, moves).value, Negate(moves);
    NegateNet(moves);
    ApplyMovesAccepts(after, back);
    forall k | 0 <= k < |moves|
      ensures Covered(after, back, k) <==> PutStillThere(rows, moves, k)
    {
      UndoCovered(rows, moves, k);
    }
  }

  /** Whatever is taken back leaves every position and every hotel-wide total as it was. */
  lemma UndoRestores(rows: seq<Row>, moves: seq<Move>)
    requires ApplyMoves(rows, moves).Ok?
    requires ApplyMoves(ApplyMoves(rows, moves).value, Negate(moves)).Ok?
    ensures forall p :: Qty(ApplyMoves(ApplyMoves(rows, moves).value, Negate(moves)).value, p) == Qty(rows, p)
  {
    ApplyMovesNet(rows, moves);
    ApplyMovesNet(ApplyMoves(rows, moves).value, Negate(moves));
    NegateNet(moves);
  }

  /** Without a position that is both taken from and put into, undoing at once is never refused. */
  lemma UnmixedUndo(rows: seq<Row>, moves: seq<Move>)
    requires Unique(rows) && NonNegative(rows) && Unmixed(moves) && ApplyMoves(rows, moves).Ok?
    ensures ApplyMoves(ApplyMoves(rows, moves).value, Negate(moves)).Ok?
  {
    UndoAccepts(rows, moves);
    forall k | 0 <= k < |moves| && moves[k].delta > 0
      ensures PutStillThere(rows, moves, k)
    {
      var p, tail := moves[k].pos, moves[k + 1..];
      QtyNonNegative(rows, p);
      NegateNet(tail);
      forall i | 0 <= i < |Negate(tail)| && Negate(tail)[i].pos == p
        ensures Negate(tail)[i].delta <= 0
      {
        assert tail[i] == moves[k + 1 + i];
      }
      NetAtMostZero(Negate(tail), p);
    }
  }
}
