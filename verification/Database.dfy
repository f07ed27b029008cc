/** The tables as the services update them, row by row, inside a transaction. */
module Database {
  import opened Stock
  import opened Kardex
  import opened Ledger
  import opened HotelState

  class Database {
    var stock: seq<Row>
    var movements: seq<Movement>
    var stocktakes: seq<Stocktake>
    var tasks: seq<Task>
    var rooms: seq<Room>

    constructor ()
      ensures Valid() && View() == Hotel(Ledger([], []), [], [], [])
    {
      stock, movements, stocktakes, tasks, rooms := [], [], [], [], [];
    }

    /** Every movement row has the warehouses and locations its type calls for. */
    ghost predicate Valid()
      reads this
    {
      forall k :: 0 <= k < |movements| ==> WellFormed(movements[k])
    }

    /** The contents of all the tables. */
    ghost function View(): Hotel
      reads this
    {
      Hotel(Books(), stocktakes, tasks, rooms)
    }

    /** The stock table and the movement log. */
    ghost function Books(): Ledger
      reads this
    {
      Ledger(stock, movements)
    }
  }
}
