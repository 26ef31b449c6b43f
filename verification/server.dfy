/**
  The server's store-and-broadcast engine: the `menu` and `orders` tables,
  the five mutating HTTP handlers, the two listings and the per-connection
  snapshot. Each handler is atomic here and returns the new store, the HTTP
  response and the events broadcast to every connected socket.
 */
module Server {
  import opened Schema
  import opened Sequences

  /** Both tables, each with the AUTOINCREMENT counter SQLite keeps for it
      (the next id it will hand out; ids of deleted rows are never reused). */
  datatype Store = Store(
    menu: map<int, MenuItem>,
    orders: map<int, Order>,
    nextMenuId: int,
    nextOrderId: int)

  /** The freshly created database. */
  const EmptyStore: Store := Store(map[], map[], 1, 1)

  /** Every row is filed under its own id, and every id is one the counter
      has already handed out. */
  ghost predicate Valid(s: Store) {
    && s.nextMenuId >= 1
    && s.nextOrderId >= 1
    && (forall id :: id in s.menu ==> 1 <= id < s.nextMenuId && s.menu[id].id == id)
    && (forall id :: id in s.orders ==> 1 <= id < s.nextOrderId && s.orders[id].id == id)
  }

  lemma EmptyStoreValid()
    ensures Valid(EmptyStore)
  {
  }

  /** Storage-layer faults, which the model cannot predict: `write` is an
      error from the INSERT/UPDATE/DELETE itself, `reread` an error from the
      SELECT that fetches the committed row for the broadcast. */
  datatype Faults = Faults(write: bool, reread: bool)

  const NoFaults: Faults := Faults(false, false)

  /** What the HTTP client receives. */
  datatype Response =
    | Text(body: string)
    | Redirect(location: string)
    | MenuJson(items: seq<MenuItem>)
    | OrdersJson(orders: seq<Order>)
    | Failure(status: int, body: string)
  {
    predicate Succeeded() { !Failure? }
  }

  /** The outcome of one handler. */
  datatype Step = Step(store: Store, response: Response, broadcast: seq<Event>)

  // ---------------------------------------------------------------------------
  // Listings
  // ---------------------------------------------------------------------------

  /** The rows of a table in ascending key order. */
  function RowsInKeyOrder<V>(table: map<int, V>): (r: seq<V>)
    ensures |r| == |table|
    ensures forall i :: 0 <= i < |r| ==> r[i] == table[Ascending(table.Keys)[i]]
  {
    var ids := Ascending(table.Keys);
    seq(|ids|, i requires 0 <= i < |ids| => table[ids[i]])
  }

  /** Every row of the table occurs in the key-order listing. */
  lemma RowsInKeyOrderComplete<V>(table: map<int, V>, k: int)
    requires k in table
    ensures table[k] in RowsInKeyOrder(table)
  {
    var ids := Ascending(table.Keys);
    var i :| 0 <= i < |ids| && ids[i] == k;
    assert RowsInKeyOrder(table)[i] == table[k];
  }

  /** The key-order listing of a table whose rows carry their own key is
      ordered by row id and holds exactly the table's rows. */
  lemma MenuKeyOrder(table: map<int, MenuItem>)
    requires forall id :: id in table ==> table[id].id == id
    ensures var r := RowsInKeyOrder(table);
            && |r| == |table|
            && (forall i :: 0 <= i < |r| ==> r[i].id in table && table[r[i].id] == r[i])
            && (forall id :: id in table ==> table[id] in r)
            && StrictlyIncreasing(MenuIds(r))
  {
    var r := RowsInKeyOrder(table);
    var ids := Ascending(table.Keys);
    forall i | 0 <= i < |r|
      ensures MenuIds(r)[i] == ids[i]
    {
      assert ids[i] in table.Keys;
    }
    forall id | id in table
      ensures table[id] in r
    {
      RowsInKeyOrderComplete(table, id);
    }
  }

  lemma OrderKeyOrder(table: map<int, Order>)
    requires forall id :: id in table ==> table[id].id == id
    ensures var r := RowsInKeyOrder(table);
            && |r| == |table|
            && (forall i :: 0 <= i < |r| ==> r[i].id in table && table[r[i].id] == r[i])
            && (forall id :: id in table ==> table[id] in r)
            && StrictlyIncreasing(OrderIds(r))
  {
    var r := RowsInKeyOrder(table);
    var ids := Ascending(table.Keys);
    forall i | 0 <= i < |r|
      ensures OrderIds(r)[i] == ids[i]
    {
      assert ids[i] in table.Keys;
    }
    forall id | id in table
      ensures table[id] in r
    {
      RowsInKeyOrderComplete(table, id);
    }
  }

  /** `SELECT * FROM menu`: every stored item, in id order, each once. */
  function MenuRows(s: Store): (r: seq<MenuItem>)
    requires Valid(s)
    ensures |r| == |s.menu|
    ensures forall i :: 0 <= i < |r| ==> r[i].id in s.menu && s.menu[r[i].id] == r[i]
    ensures forall id :: id in s.menu ==> s.menu[id] in r
    ensures StrictlyIncreasing(MenuIds(r))
  {
    MenuKeyOrder(s.menu);
    RowsInKeyOrder(s.menu)
  }

  /** `SELECT * FROM orders`: every stored order, in id order, each once. */
  function OrderRows(s: Store): (r: seq<Order>)
    requires Valid(s)
    ensures |r| == |s.orders|
    ensures forall i :: 0 <= i < |r| ==> r[i].id in s.orders && s.orders[r[i].id] == r[i]
    ensures forall id :: id in s.orders ==> s.orders[id] in r
    ensures StrictlyIncreasing(OrderIds(r))
  {
    OrderKeyOrder(s.orders);
    RowsInKeyOrder(s.orders)
  }

  /** `GET /menu`. */
  function GetMenu(s: Store, fault: bool): (r: Response)
    requires Valid(s)
    ensures fault <==> r == Failure(500, "Error fetching menu.")
    ensures !fault ==> r.MenuJson? && r.items == MenuRows(s)
  {
    if fault then Failure(500, "Error fetching menu.") else MenuJson(MenuRows(s))
  }

  /** The query's `sort || 'desc'` followed by `sort === 'asc'`: only the
      exact text "asc" selects ascending order. */
  predicate SortsAscending(sort: Nullable<string>) {
    sort == Value("asc")
  }

  lemma OrderIdsReverse(rows: seq<Order>)
    ensures OrderIds(Reverse(rows)) == Reverse(OrderIds(rows))
  {
  }

  /** `ORDER BY id DESC`: every stored order, newest id first. */
  function OrderRowsDescending(s: Store): (r: seq<Order>)
    requires Valid(s)
    ensures |r| == |s.orders|
    ensures forall i :: 0 <= i < |r| ==> r[i].id in s.orders && s.orders[r[i].id] == r[i]
    ensures forall id :: id in s.orders ==> s.orders[id] in r
    ensures StrictlyDecreasing(OrderIds(r))
  {
    var up := OrderRows(s);
    OrderIdsReverse(up);
    ReverseOfIncreasing(OrderIds(up));
    forall id | id in s.orders
      ensures s.orders[id] in Reverse(up)
    {
      ReverseKeepsElements(up, s.orders[id]);
    }
    Reverse(up)
  }

  /** `GET /admin/orders?sort=...`. */
  function ListOrders(s: Store, sort: Nullable<string>, fault: bool): (r: Response)
    requires Valid(s)
    ensures fault <==> r == Failure(500, "Error fetching orders.")
    ensures !fault ==> r.OrdersJson?
    ensures !fault ==> |r.orders| == |s.orders|
    ensures !fault ==> forall i :: 0 <= i < |r.orders| ==>
      r.orders[i].id in s.orders && s.orders[r.orders[i].id] == r.orders[i]
    ensures !fault ==> forall id :: id in s.orders ==> s.orders[id] in r.orders
    ensures !fault && SortsAscending(sort) ==> StrictlyIncreasing(OrderIds(r.orders))
    ensures !fault && !SortsAscending(sort) ==> StrictlyDecreasing(OrderIds(r.orders))
  {
    if fault then Failure(500, "Error fetching orders.")
    else if SortsAscending(sort) then OrdersJson(OrderRows(s))
    else OrdersJson(OrderRowsDescending(s))
  }

  /** `io.on('connection')`: the events sent to the new socket only. Each
      of the two reads may fail independently, and then its event is not
      sent. The two reads complete in either order; listing the menu first
      is a choice of the model, and `Sync.SnapshotsCommute` shows the admin
      page ends up the same the other way round. */
  function Connect(s: Store, menuFault: bool, ordersFault: bool): (r: seq<Event>)
    requires Valid(s)
    ensures |r| == (if menuFault then 0 else 1) + (if ordersFault then 0 else 1)
    ensures !menuFault ==> r[0] == InitialMenu(MenuRows(s))
    ensures !ordersFault ==> r[|r| - 1] == InitialOrders(OrderRows(s))
  {
    (if menuFault then [] else [InitialMenu(MenuRows(s))])
    + (if ordersFault then [] else [InitialOrders(OrderRows(s))])
  }

  // ---------------------------------------------------------------------------
  // Mutating handlers
  // ---------------------------------------------------------------------------

  /** `POST /admin/add-food-item`. The NOT NULL columns reject a missing name
      or price; nothing else is validated. */
  function AddFoodItem(s: Store, name: Nullable<string>, price: Nullable<Price>, faults: Faults): (r: Step)
    ensures r.response.Succeeded() <==> !faults.write && name.Value? && price.Value?
    ensures !r.response.Succeeded() ==>
      r == Step(s, Failure(500, "Error adding food item."), [])
    ensures r.response.Succeeded() ==>
      var id := s.nextMenuId;
      && r.response == Text("Food item added successfully.")
      && r.store.menu.Keys == s.menu.Keys + {id}
      && r.store.menu[id] == MenuItem(id, name.value, price.value)
      && (forall k :: k in s.menu && k != id ==> r.store.menu[k] == s.menu[k])
      && r.store.orders == s.orders
      && r.store.nextMenuId == id + 1
      && r.store.nextOrderId == s.nextOrderId
      && r.broadcast == (if faults.reread then [] else [NewFoodItem(r.store.menu[id])])
    ensures Valid(s) && r.response.Succeeded() ==>
      s.nextMenuId !in s.menu && forall k :: k in s.menu ==> k < s.nextMenuId
    ensures Valid(s) ==> Valid(r.store)
  {
    if faults.write || name.Null? || price.Null? then
      Step(s, Failure(500, "Error adding food item."), [])
    else
      var id := s.nextMenuId;
      var row := MenuItem(id, name.value, price.value);
      var s' := s.(menu := s.menu[id := row], nextMenuId := id + 1);
      Step(s', Text("Food item added successfully."), if faults.reread then [] else [NewFoodItem(row)])
  }

  /** `POST /submit-order`. The order gets the next id, the timestamp `now`
      and status "pending"; the items and the client's total are stored as
      given, with no check against each other or the menu. */
  function SubmitOrder(
    s: Store, tableNumber: Nullable<string>, items: Nullable<map<string, int>>,
    totalPrice: Nullable<Price>, now: Timestamp, faults: Faults): (r: Step)
    ensures r.response.Succeeded() <==>
      !faults.write && tableNumber.Value? && items.Value? && totalPrice.Value?
    ensures !r.response.Succeeded() ==>
      r == Step(s, Failure(500, "Error placing order."), [])
    ensures r.response.Succeeded() ==>
      var id := s.nextOrderId;
      && r.response == Redirect("/")
      && r.store.orders.Keys == s.orders.Keys + {id}
      && r.store.orders[id] == Order(id, now, tableNumber.value, items.value, totalPrice.value, Value(Pending))
      && (forall k :: k in s.orders && k != id ==> r.store.orders[k] == s.orders[k])
      && r.store.menu == s.menu
      && r.store.nextOrderId == id + 1
      && r.store.nextMenuId == s.nextMenuId
      && r.broadcast == (if faults.reread then [] else [NewOrder(r.store.orders[id])])
    ensures Valid(s) && r.response.Succeeded() ==>
      s.nextOrderId !in s.orders && forall k :: k in s.orders ==> k < s.nextOrderId
    ensures Valid(s) ==> Valid(r.store)
  {
    if faults.write || tableNumber.Null? || items.Null? || totalPrice.Null? then
      Step(s, Failure(500, "Error placing order."), [])
    else
      var id := s.nextOrderId;
      var row := Order(id, now, tableNumber.value, items.value, totalPrice.value, Value(Pending));
      var s' := s.(orders := s.orders[id := row], nextOrderId := id + 1);
      Step(s', Redirect("/"), if faults.reread then [] else [NewOrder(row)])
  }

  /** `POST /admin/update-status`. Any status is written, including a step
      back from "completed" and a missing one (stored as NULL); an id with
      no row still answers success, and the re-read then finds nothing, so
      the broadcast carries no row. */
  function UpdateStatus(s: Store, id: int, status: Nullable<string>, faults: Faults): (r: Step)
    ensures r.response.Succeeded() <==> !faults.write
    ensures faults.write ==> r == Step(s, Failure(500, "Error updating status."), [])
    ensures !faults.write ==>
      && r.response == Text("Status updated successfully.")
      && r.store.menu == s.menu
      && r.store.nextMenuId == s.nextMenuId
      && r.store.nextOrderId == s.nextOrderId
      && r.store.orders.Keys == s.orders.Keys
      && (forall k :: k in s.orders && k != id ==> r.store.orders[k] == s.orders[k])
      && (id in s.orders ==> r.store.orders[id] == s.orders[id].(status := status))
      && r.broadcast == (
           if faults.reread then []
           else if id in s.orders then [OrderUpdated(Value(r.store.orders[id]))]
           else [OrderUpdated(Null)])
    ensures Valid(s) ==> Valid(r.store)
  {
    if faults.write then
      Step(s, Failure(500, "Error updating status."), [])
    else
      var s' := if id in s.orders then s.(orders := s.orders[id := s.orders[id].(status := status)]) else s;
      var reread := if id in s'.orders then Value(s'.orders[id]) else Null;
      Step(s', Text("Status updated successfully."), if faults.reread then [] else [OrderUpdated(reread)])
  }

  /** `POST /admin/delete-order`: deletes by id, whatever the status, and
      announces the id even when no row had it. */
  function DeleteOrder(s: Store, id: int, faults: Faults): (r: Step)
    ensures r.response.Succeeded() <==> !faults.write
    ensures faults.write ==> r == Step(s, Failure(500, "Error deleting order."), [])
    ensures !faults.write ==>
      && r.response == Text("Order deleted successfully.")
      && r.store.orders.Keys == s.orders.Keys - {id}
      && (forall k :: k in r.store.orders ==> r.store.orders[k] == s.orders[k])
      && r.store.menu == s.menu
      && r.store.nextMenuId == s.nextMenuId
      && r.store.nextOrderId == s.nextOrderId
      && r.broadcast == [OrderDeleted(id)]
    ensures Valid(s) ==> Valid(r.store)
  {
    if faults.write then
      Step(s, Failure(500, "Error deleting order."), [])
    else
      Step(s.(orders := s.orders - {id}), Text("Order deleted successfully."), [OrderDeleted(id)])
  }

  /** `POST /admin/delete-food-item`: deletes by id and announces the id even
      when no row had it. Orders keep their own copy of item names, so the
      orders table is untouched. */
  function DeleteFoodItem(s: Store, id: int, faults: Faults): (r: Step)
    ensures r.response.Succeeded() <==> !faults.write
    ensures faults.write ==> r == Step(s, Failure(500, "Error deleting food item."), [])
    ensures !faults.write ==>
      && r.response == Text("Food item deleted successfully.")
      && r.store.menu.Keys == s.menu.Keys - {id}
      && (forall k :: k in r.store.menu ==> r.store.menu[k] == s.menu[k])
      && r.store.orders == s.orders
      && r.store.nextMenuId == s.nextMenuId
      && r.store.nextOrderId == s.nextOrderId
      && r.broadcast == [FoodItemDeleted(id)]
    ensures Valid(s) ==> Valid(r.store)
  {
    if faults.write then
      Step(s, Failure(500, "Error deleting food item."), [])
    else
      Step(s.(menu := s.menu - {id}), Text("Food item deleted successfully."), [FoodItemDeleted(id)])
  }

  // ---------------------------------------------------------------------------
  // Properties of single handlers
  // ---------------------------------------------------------------------------

  /** Deleting an order twice leaves the same store as deleting it once, and
      both calls answer and announce the same. */
  lemma DeleteOrderIdempotent(s: Store, id: int)
    ensures var once := DeleteOrder(s, id, NoFaults);
            var twice := DeleteOrder(once.store, id, NoFaults);
            twice.store == once.store && twice.response == once.response
            && twice.broadcast == once.broadcast == [OrderDeleted(id)]
  {
    var once := DeleteOrder(s, id, NoFaults);
    assert once.store.orders - {id} == once.store.orders;
  }

  lemma DeleteFoodItemIdempotent(s: Store, id: int)
    ensures var once := DeleteFoodItem(s, id, NoFaults);
            var twice := DeleteFoodItem(once.store, id, NoFaults);
            twice.store == once.store && twice.response == once.response
            && twice.broadcast == once.broadcast == [FoodItemDeleted(id)]
  {
    var once := DeleteFoodItem(s, id, NoFaults);
    assert once.store.menu - {id} == once.store.menu;
  }

  /** Deleting an id no row has changes nothing but still broadcasts. */
  lemma DeleteMissingOrderOnlyBroadcasts(s: Store, id: int)
    requires id !in s.orders
    ensures DeleteOrder(s, id, NoFaults).store == s
    ensures DeleteOrder(s, id, NoFaults).broadcast == [OrderDeleted(id)]
  {
    assert s.orders - {id} == s.orders;
  }

  /** Marking an already completed order completed again changes nothing
      observable in the store. */
  lemma CompletingTwiceIsNoOp(s: Store, id: int)
    requires id in s.orders && s.orders[id].status == Value(Completed)
    ensures UpdateStatus(s, id, Value(Completed), NoFaults).store == s
  {
    assert s.orders[id := s.orders[id].(status := Value(Completed))] == s.orders;
  }

  /** Nothing stops an order from going back from "completed" to "pending". */
  lemma StatusCanRevert(s: Store, id: int)
    requires id in s.orders && s.orders[id].status == Value(Completed)
    ensures var r := UpdateStatus(s, id, Value(Pending), NoFaults);
            r.response.Succeeded() && r.store.orders[id].status == Value(Pending)
  {
  }

  /** For an id with no row, update-status answers success, changes nothing,
      and broadcasts `orderUpdated` with no row. */
  lemma UpdateMissingOrder(s: Store, id: int, status: Nullable<string>)
    requires id !in s.orders
    ensures var r := UpdateStatus(s, id, status, NoFaults);
            r.response.Succeeded() && r.store == s && r.broadcast == [OrderUpdated(Null)]
  {
  }

  // ---------------------------------------------------------------------------
  // Requests and runs
  // ---------------------------------------------------------------------------

  /** One mutating HTTP request, with its body fields. */
  datatype Request =
    | AddFoodItemRequest(name: Nullable<string>, price: Nullable<Price>)
    | SubmitOrderRequest(
        tableNumber: Nullable<string>, items: Nullable<map<string, int>>,
        totalPrice: Nullable<Price>, now: Timestamp)
    | UpdateStatusRequest(id: int, status: Nullable<string>)
    | DeleteOrderRequest(id: int)
    | DeleteFoodItemRequest(id: int)

  function Handle(s: Store, req: Request, faults: Faults): Step {
    match req
    case AddFoodItemRequest(name, price) => AddFoodItem(s, name, price, faults)
    case SubmitOrderRequest(t, items, total, now) => SubmitOrder(s, t, items, total, now, faults)
    case UpdateStatusRequest(id, status) => UpdateStatus(s, id, status, faults)
    case DeleteOrderRequest(id) => DeleteOrder(s, id, faults)
    case DeleteFoodItemRequest(id) => DeleteFoodItem(s, id, faults)
  }

  /** The event a request of this kind announces. */
  predicate Announces(req: Request, e: Event) {
    match req
    case AddFoodItemRequest(_, _) => e.NewFoodItem?
    case SubmitOrderRequest(_, _, _, _) => e.NewOrder?
    case UpdateStatusRequest(id, _) => e.OrderUpdated? && (e.row.Value? ==> e.row.value.id == id)
    case DeleteOrderRequest(id) => e == OrderDeleted(id)
    case DeleteFoodItemRequest(id) => e == FoodItemDeleted(id)
  }

  /** A failed mutation broadcasts nothing; a successful one broadcasts
      exactly one event of its own kind, unless the re-read of the
      committed row failed (deletes do not re-read). */
  lemma AtMostOneEvent(s: Store, req: Request, faults: Faults)
    requires Valid(s)
    ensures var r := Handle(s, req, faults);
            && |r.broadcast| <= 1
            && (|r.broadcast| == 1 ==> r.response.Succeeded() && Announces(req, r.broadcast[0]))
            && (r.response.Succeeded() && (!faults.reread || req.DeleteOrderRequest? || req.DeleteFoodItemRequest?)
                ==> |r.broadcast| == 1)
  {
  }

  /** The stores and broadcasts of a sequence of requests, handled one at a
      time in arrival order. */
  datatype Trace = Trace(store: Store, broadcast: seq<Event>)

  function Run(s: Store, reqs: seq<(Request, Faults)>): (r: Trace)
    ensures Valid(s) ==> Valid(r.store)
    ensures s.nextMenuId <= r.store.nextMenuId && s.nextOrderId <= r.store.nextOrderId
    ensures |r.broadcast| <= |reqs|
    decreases |reqs|
  {
    if reqs == [] then Trace(s, [])
    else
      var step := Handle(s, reqs[0].0, reqs[0].1);
      var rest := Run(step.store, reqs[1..]);
      Trace(rest.store, step.broadcast + rest.broadcast)
  }

  /** The ids announced by `newFoodItem` events, in broadcast order. */
  function AddedMenuIds(events: seq<Event>): seq<int> {
    if events == [] then []
    else (if events[0].NewFoodItem? then [events[0].item.id] else []) + AddedMenuIds(events[1..])
  }

  /** The ids announced by `newOrder` events, in broadcast order. */
  function AddedOrderIds(events: seq<Event>): seq<int> {
    if events == [] then []
    else (if events[0].NewOrder? then [events[0].order.id] else []) + AddedOrderIds(events[1..])
  }

  lemma {:induction false} AddedMenuIdsAppend(a: seq<Event>, b: seq<Event>)
    ensures AddedMenuIds(a + b) == AddedMenuIds(a) + AddedMenuIds(b)
  {
    if a != [] {
      assert (a + b)[1..] == a[1..] + b;
      AddedMenuIdsAppend(a[1..], b);
    } else {
      assert a + b == b;
    }
  }

  lemma {:induction false} AddedOrderIdsAppend(a: seq<Event>, b: seq<Event>)
    ensures AddedOrderIds(a + b) == AddedOrderIds(a) + AddedOrderIds(b)
  {
    if a != [] {
      assert (a + b)[1..] == a[1..] + b;
      AddedOrderIdsAppend(a[1..], b);
    } else {
      assert a + b == b;
    }
  }

  /** Everything in `xs` lies in `[lo, hi)`. */
  ghost predicate AllIn(xs: seq<int>, lo: int, hi: int) {
    forall i :: 0 <= i < |xs| ==> lo <= xs[i] < hi
  }

  lemma JoinIncreasing(a: seq<int>, b: seq<int>, lo: int, mid: int, hi: int)
    requires lo <= mid <= hi
    requires StrictlyIncreasing(a) && AllIn(a, lo, mid)
    requires StrictlyIncreasing(b) && AllIn(b, mid, hi)
    ensures StrictlyIncreasing(a + b) && AllIn(a + b, lo, hi)
  {
    forall i | 0 <= i < |a + b|
      ensures lo <= (a + b)[i] < hi
    {
      if i < |a| {
        assert (a + b)[i] == a[i];
      } else {
        assert (a + b)[i] == b[i - |a|];
      }
    }
  }

  /** One handler only adds rows under the ids it hands out: rows below the
      counters are never recreated, and any new id it announces lies between
      the old and the new counter. */
  lemma StepKeepsOldRows(s: Store, req: Request, faults: Faults)
    requires Valid(s)
    ensures var t := Handle(s, req, faults).store;
            var e := Handle(s, req, faults).broadcast;
            && Valid(t)
            && s.nextMenuId <= t.nextMenuId && s.nextOrderId <= t.nextOrderId
            && (forall id :: id in t.menu && id < s.nextMenuId ==> id in s.menu && t.menu[id] == s.menu[id])
            && (forall id :: id in t.orders && id < s.nextOrderId ==>
                  id in s.orders && t.orders[id] == s.orders[id].(status := t.orders[id].status))
            && StrictlyIncreasing(AddedMenuIds(e)) && AllIn(AddedMenuIds(e), s.nextMenuId, t.nextMenuId)
            && StrictlyIncreasing(AddedOrderIds(e)) && AllIn(AddedOrderIds(e), s.nextOrderId, t.nextOrderId)
  {
    var r := Handle(s, req, faults);
    assert |r.broadcast| <= 1 by { AtMostOneEvent(s, req, faults); }
    if |r.broadcast| == 1 {
      assert AddedMenuIds(r.broadcast[1..]) == [];
      assert AddedOrderIds(r.broadcast[1..]) == [];
    }
  }

  /** AUTOINCREMENT over any run of requests: a menu row or order whose id
      was already handed out before the run is, after it, either gone or the
      same row (an order may differ in its status only), so a deleted id is
      never given to a new row; and the ids announced by `newFoodItem` and
      `newOrder` strictly increase and are all fresh. */
  lemma {:induction false} IdsNeverReused(s: Store, reqs: seq<(Request, Faults)>)
    requires Valid(s)
    ensures var t := Run(s, reqs);
            && Valid(t.store)
            && s.nextMenuId <= t.store.nextMenuId && s.nextOrderId <= t.store.nextOrderId
            && (forall id :: id in t.store.menu && id < s.nextMenuId ==>
                  id in s.menu && t.store.menu[id] == s.menu[id])
            && (forall id :: id in t.store.orders && id < s.nextOrderId ==>
                  id in s.orders && t.store.orders[id] == s.orders[id].(status := t.store.orders[id].status))
            && StrictlyIncreasing(AddedMenuIds(t.broadcast))
            && AllIn(AddedMenuIds(t.broadcast), s.nextMenuId, t.store.nextMenuId)
            && StrictlyIncreasing(AddedOrderIds(t.broadcast))
            && AllIn(AddedOrderIds(t.broadcast), s.nextOrderId, t.store.nextOrderId)
    decreases |reqs|
  {
    if reqs != [] {
      var step := Handle(s, reqs[0].0, reqs[0].1);
      StepKeepsOldRows(s, reqs[0].0, reqs[0].1);
      IdsNeverReused(step.store, reqs[1..]);
      var rest := Run(step.store, reqs[1..]);
      AddedMenuIdsAppend(step.broadcast, rest.broadcast);
      AddedOrderIdsAppend(step.broadcast, rest.broadcast);
      JoinIncreasing(AddedMenuIds(step.broadcast), AddedMenuIds(rest.broadcast),
                     s.nextMenuId, step.store.nextMenuId, rest.store.nextMenuId);
      JoinIncreasing(AddedOrderIds(step.broadcast), AddedOrderIds(rest.broadcast),
                     s.nextOrderId, step.store.nextOrderId, rest.store.nextOrderId);
    }
  }
}
