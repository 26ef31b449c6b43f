/**
  Row and message shapes shared by the restaurant server, the customer page
  and the admin page: the two SQLite tables' rows and the socket events that
  carry them.
 */
module Schema {

  /** A value that may be absent: SQL NULL, or a JavaScript `undefined`/`null`
      request field that the SQLite driver binds as NULL. (An explicit `null`
      for `items` is the exception: the server stores `JSON.stringify(null)`,
      the text "null", which this model does not represent.) */
  datatype Nullable<+T> = Null | Value(value: T)

  /** An ordinary optional result (a lookup that may find nothing). */
  datatype Option<+T> = None | Some(value: T)

  /** Prices are REAL columns in the source; here they are whole cents. */
  type Price = int

  /** The text SQLite's `datetime('now', 'localtime')` yields; kept opaque. */
  type Timestamp = string

  /** The default of the `orders.status` column. */
  const Pending: string := "pending"

  /** The status value both pages compare against. */
  const Completed: string := "completed"

  /** A row of the `menu` table. */
  datatype MenuItem = MenuItem(id: int, name: string, price: Price)

  /** A row of the `orders` table; `items` is the name -> quantity object the
      server stores as JSON text. `status` has no NOT NULL constraint. */
  datatype Order = Order(
    id: int,
    datetime: Timestamp,
    tableNumber: string,
    items: map<string, int>,
    totalPrice: Price,
    status: Nullable<string>)

  /** The socket.io events, with their payloads. `orderUpdated` carries the
      re-read row, which is `undefined` on the server when no row has the
      requested id and reaches the pages as `null`, since socket.io sends
      event arguments as JSON. */
  datatype Event =
    | NewFoodItem(item: MenuItem)
    | FoodItemDeleted(deletedId: int)
    | NewOrder(order: Order)
    | OrderUpdated(row: Nullable<Order>)
    | OrderDeleted(deletedId: int)
    | InitialMenu(menu: seq<MenuItem>)
    | InitialOrders(orders: seq<Order>)

  /** The ids of a list of menu rows, in list order. */
  function MenuIds(rows: seq<MenuItem>): (r: seq<int>)
    ensures |r| == |rows|
    ensures forall i :: 0 <= i < |rows| ==> r[i] == rows[i].id
  {
    seq(|rows|, i requires 0 <= i < |rows| => rows[i].id)
  }

  /** The ids of a list of orders, in list order. */
  function OrderIds(rows: seq<Order>): (r: seq<int>)
    ensures |r| == |rows|
    ensures forall i :: 0 <= i < |rows| ==> r[i] == rows[i].id
  {
    seq(|rows|, i requires 0 <= i < |rows| => rows[i].id)
  }
}
