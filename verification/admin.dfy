/**
  The admin page as a replica of the server's tables: the menu list and the
  orders table it keeps up to date from socket events, the actions each
  order row offers, and the sort toggle. Each socket handler is a step of a
  reducer over the page's view; a handler that throws leaves the view as it
  was (every throwing handler throws before touching the page).
 */
module Admin {
  import opened Schema
  import opened Sequences

  /** The controls in a row's last cell. */
  datatype Actions = Actions(markCompleted: bool, completedLabel: bool, delete: bool)

  /** A row of the orders table: the order it was rendered from (whose status
      cell live updates rewrite) and its action cell. */
  datatype Row = Row(order: Order, actions: Actions)

  /** The page: the menu list, the orders table top to bottom, and the
      module-level `sortOrder`. */
  datatype View = View(menu: seq<MenuItem>, rows: seq<Row>, sortOrder: string)

  /** The page as loaded, before any event. */
  const LoadedView: View := View([], [], "desc")

  /** What a socket handler did: the new view, or the TypeError it threw. */
  datatype Handled = Done(view: View) | Threw(error: string)

  // ---------------------------------------------------------------------------
  // Rendering
  // ---------------------------------------------------------------------------

  /** `createOrderRow`: a completed order offers the "Completed" label and a
      Delete button; any other status, including NULL, offers only "Mark as
      Completed". */
  function CreateOrderRow(order: Order): (r: Row)
    ensures r.order == order
    ensures r.actions.delete <==> order.status == Value(Completed)
    ensures r.actions.completedLabel <==> order.status == Value(Completed)
    ensures r.actions.markCompleted <==> order.status != Value(Completed)
  {
    var done := order.status == Value(Completed);
    Row(order, Actions(markCompleted := !done, completedLabel := done, delete := done))
  }

  /** The action cell `orderUpdated` writes: the same choice as
      `createOrderRow`, but never a Delete button. */
  function LiveActions(status: Nullable<string>): (r: Actions)
    ensures !r.delete
    ensures r.completedLabel <==> status == Value(Completed)
    ensures r.markCompleted <==> status != Value(Completed)
  {
    var done := status == Value(Completed);
    Actions(markCompleted := !done, completedLabel := done, delete := false)
  }

  function RowIds(rows: seq<Row>): (r: seq<int>)
    ensures |r| == |rows|
    ensures forall i :: 0 <= i < |rows| ==> r[i] == rows[i].order.id
  {
    seq(|rows|, i requires 0 <= i < |rows| => rows[i].order.id)
  }

  /** `orders.forEach(order => tbody.prepend(createOrderRow(order)))`. */
  function PrependAll(rows: seq<Row>, orders: seq<Order>): seq<Row>
    decreases |orders|
  {
    if orders == [] then rows
    else PrependAll([CreateOrderRow(orders[0])] + rows, orders[1..])
  }

  /** `renderOrders`: the table is emptied, then every order prepended, so
      the table shows the orders in the opposite order to the one they
      arrived in. */
  function RenderOrders(orders: seq<Order>): (r: seq<Row>)
    ensures |r| == |orders|
    ensures forall i :: 0 <= i < |orders| ==> r[i] == CreateOrderRow(orders[|orders| - 1 - i])
  {
    PrependAllReverses([], orders);
    PrependAll([], orders)
  }

  lemma {:induction false} PrependAllReverses(rows: seq<Row>, orders: seq<Order>)
    ensures |PrependAll(rows, orders)| == |orders| + |rows|
    ensures forall i :: 0 <= i < |orders| ==>
      PrependAll(rows, orders)[i] == CreateOrderRow(orders[|orders| - 1 - i])
    ensures PrependAll(rows, orders)[|orders|..] == rows
    decreases |orders|
  {
    if orders != [] {
      var rows' := [CreateOrderRow(orders[0])] + rows;
      PrependAllReverses(rows', orders[1..]);
      var r := PrependAll(rows', orders[1..]);
      assert r[|orders| - 1] == rows'[0];
      assert r[|orders|..] == r[|orders| - 1..][1..];
    }
  }

  /** The rendered table's ids are the arriving ids reversed. */
  lemma RenderOrdersReverses(orders: seq<Order>)
    ensures RowIds(RenderOrders(orders)) == Reverse(OrderIds(orders))
  {
  }

  /** `menu.forEach(item => menuList.appendChild(createMenuItem(item)))`. */
  function AppendAll(list: seq<MenuItem>, items: seq<MenuItem>): seq<MenuItem>
    decreases |items|
  {
    if items == [] then list
    else AppendAll(list + [items[0]], items[1..])
  }

  /** `renderMenu`: the list is emptied, then every item appended, so the
      list shows the items in the order they arrived in. */
  function RenderMenu(items: seq<MenuItem>): (r: seq<MenuItem>)
    ensures r == items
  {
    AppendAllKeepsOrder([], items);
    AppendAll([], items)
  }

  lemma {:induction false} AppendAllKeepsOrder(list: seq<MenuItem>, items: seq<MenuItem>)
    ensures AppendAll(list, items) == list + items
    decreases |items|
  {
    if items != [] {
      AppendAllKeepsOrder(list + [items[0]], items[1..]);
      assert list + [items[0]] + items[1..] == list + items;
    }
  }

  // ---------------------------------------------------------------------------
  // Lookups (`document.querySelector` finds the first match)
  // ---------------------------------------------------------------------------

  /** The first row whose status cell has class `status-<id>`. */
  function FindRow(rows: seq<Row>, id: int): (r: Option<nat>)
    ensures r.None? <==> forall j :: 0 <= j < |rows| ==> rows[j].order.id != id
    ensures r.Some? ==> r.value < |rows| && rows[r.value].order.id == id
                        && forall j :: 0 <= j < r.value ==> rows[j].order.id != id
  {
    if rows == [] then None
    else if rows[0].order.id == id then Some(0)
    else
      match FindRow(rows[1..], id)
      case None => None
      case Some(i) => Some(i + 1)
  }

  /** The first list entry with class `menu-item-<id>`. */
  function FindMenuEntry(menu: seq<MenuItem>, id: int): (r: Option<nat>)
    ensures r.None? <==> forall j :: 0 <= j < |menu| ==> menu[j].id != id
    ensures r.Some? ==> r.value < |menu| && menu[r.value].id == id
                        && forall j :: 0 <= j < r.value ==> menu[j].id != id
  {
    if menu == [] then None
    else if menu[0].id == id then Some(0)
    else
      match FindMenuEntry(menu[1..], id)
      case None => None
      case Some(i) => Some(i + 1)
  }

  function RemoveAt<T>(xs: seq<T>, i: nat): (r: seq<T>)
    requires i < |xs|
    ensures |r| == |xs| - 1
    ensures forall j :: 0 <= j < i ==> r[j] == xs[j]
    ensures forall j :: i <= j < |r| ==> r[j] == xs[j + 1]
  {
    xs[..i] + xs[i + 1..]
  }

  /** The status cell gets the new status and the action cell is rewritten;
      the other cells keep what they were rendered with. */
  function WithStatus(row: Row, status: Nullable<string>): Row {
    Row(row.order.(status := status), LiveActions(status))
  }

  // ---------------------------------------------------------------------------
  // The socket handlers
  // ---------------------------------------------------------------------------

  const NullId: string := "Cannot read properties of null (reading 'id')"
  const NullSibling: string := "Cannot read properties of null (reading 'nextElementSibling')"
  const NullParent: string := "Cannot read properties of null (reading 'parentElement')"

  /** One socket event, handled as admin.js handles it. */
  function Receive(v: View, e: Event): (r: Handled)
    ensures r.Done? ==> r.view.sortOrder == v.sortOrder
    ensures r.Threw? <==>
      || e == OrderUpdated(Null)
      || (e.OrderUpdated? && e.row.Value? && FindRow(v.rows, e.row.value.id).None?)
      || (e.OrderDeleted? && FindRow(v.rows, e.deletedId).None?)
  {
    match e
    case InitialMenu(items) => Done(v.(menu := RenderMenu(items)))
    case InitialOrders(orders) => Done(v.(rows := RenderOrders(orders)))
    case NewFoodItem(item) => Done(v.(menu := v.menu + [item]))
    case FoodItemDeleted(id) =>
      (match FindMenuEntry(v.menu, id)
       case None => Done(v)
       case Some(i) => Done(v.(menu := RemoveAt(v.menu, i))))
    case NewOrder(order) => Done(v.(rows := [CreateOrderRow(order)] + v.rows))
    case OrderUpdated(row) =>
      (match row
       case Null => Threw(NullId)
       case Value(order) =>
         match FindRow(v.rows, order.id)
         case None => Threw(NullSibling)
         case Some(i) => Done(v.(rows := v.rows[i := WithStatus(v.rows[i], order.status)])))
    case OrderDeleted(id) =>
      (match FindRow(v.rows, id)
       case None => Threw(NullParent)
       case Some(i) => Done(v.(rows := RemoveAt(v.rows, i))))
  }

  /** The view after an event; a handler that throws changes nothing. */
  function After(v: View, e: Event): View {
    match Receive(v, e)
    case Done(v') => v'
    case Threw(_) => v
  }

  /** `newOrder` puts the new row on top and moves nothing else;
      `newFoodItem` puts the item at the bottom of the list. */
  lemma NewRowsPlacement(v: View, order: Order, item: MenuItem)
    ensures var rows := After(v, NewOrder(order)).rows;
            rows[0] == CreateOrderRow(order) && rows[1..] == v.rows
            && After(v, NewOrder(order)).menu == v.menu
    ensures var menu := After(v, NewFoodItem(item)).menu;
            menu[..|v.menu|] == v.menu && menu[|v.menu|] == item && |menu| == |v.menu| + 1
            && After(v, NewFoodItem(item)).rows == v.rows
  {
    assert ([CreateOrderRow(order)] + v.rows)[1..] == v.rows;
    assert (v.menu + [item])[..|v.menu|] == v.menu;
  }

  /** `foodItemDeleted` for an id not listed changes nothing; otherwise it
      removes the first entry with that id and keeps the others in order. */
  lemma FoodItemDeletedRemoves(v: View, id: int)
    ensures FindMenuEntry(v.menu, id).None? ==> After(v, FoodItemDeleted(id)) == v
    ensures FindMenuEntry(v.menu, id).Some? ==>
      var i := FindMenuEntry(v.menu, id).value;
      var menu := After(v, FoodItemDeleted(id)).menu;
      |menu| == |v.menu| - 1
      && (forall j :: 0 <= j < i ==> menu[j] == v.menu[j])
      && (forall j :: i <= j < |menu| ==> menu[j] == v.menu[j + 1])
      && After(v, FoodItemDeleted(id)).rows == v.rows
  {
  }

  /** With distinct ids in the list, no entry for the id survives. */
  lemma FoodItemDeletedLeavesNone(v: View, id: int)
    requires forall a, b :: 0 <= a < b < |v.menu| ==> v.menu[a].id != v.menu[b].id
    ensures forall j :: 0 <= j < |After(v, FoodItemDeleted(id)).menu| ==>
      After(v, FoodItemDeleted(id)).menu[j].id != id
  {
    FoodItemDeletedRemoves(v, id);
  }

  /** `orderUpdated` for a listed order rewrites only that row's status cell
      and action cell; a payload for an order with no row, or no payload at
      all, throws. */
  lemma OrderUpdatedTouchesOnlyStatus(v: View, order: Order)
    ensures FindRow(v.rows, order.id).None? ==> Receive(v, OrderUpdated(Value(order))).Threw?
    ensures FindRow(v.rows, order.id).Some? ==>
      var i := FindRow(v.rows, order.id).value;
      var w := After(v, OrderUpdated(Value(order)));
      && w.menu == v.menu
      && |w.rows| == |v.rows|
      && (forall j :: 0 <= j < |v.rows| && j != i ==> w.rows[j] == v.rows[j])
      && w.rows[i].order == v.rows[i].order.(status := order.status)
      && w.rows[i].actions == LiveActions(order.status)
    ensures Receive(v, OrderUpdated(Null)).Threw?
  {
  }

  /** A row completed live shows only the "Completed" label: unlike a row
      rendered from a completed order, it offers no Delete button. */
  lemma LiveCompletionDropsDelete(v: View, order: Order)
    requires order.status == Value(Completed)
    requires FindRow(v.rows, order.id).Some?
    ensures var i := FindRow(v.rows, order.id).value;
            After(v, OrderUpdated(Value(order))).rows[i].actions == Actions(false, true, false)
    ensures CreateOrderRow(order).actions == Actions(false, true, true)
  {
  }

  /** `orderDeleted` removes the first row with the id, and throws when there
      is none. */
  lemma OrderDeletedRemoves(v: View, id: int)
    ensures FindRow(v.rows, id).None? ==> Receive(v, OrderDeleted(id)).Threw?
    ensures FindRow(v.rows, id).Some? ==>
      var i := FindRow(v.rows, id).value;
      var rows := After(v, OrderDeleted(id)).rows;
      |rows| == |v.rows| - 1
      && (forall j :: 0 <= j < i ==> rows[j] == v.rows[j])
      && (forall j :: i <= j < |rows| ==> rows[j] == v.rows[j + 1])
      && After(v, OrderDeleted(id)).menu == v.menu
  {
  }

  predicate DistinctRowIds(rows: seq<Row>) {
    forall a, b :: 0 <= a < b < |rows| ==> rows[a].order.id != rows[b].order.id
  }

  /** A second `orderDeleted` for the same id throws, because the first one
      already removed the only row with that id. */
  lemma RepeatedOrderDeletedThrows(v: View, id: int)
    requires DistinctRowIds(v.rows)
    ensures Receive(After(v, OrderDeleted(id)), OrderDeleted(id)).Threw?
  {
    var w := After(v, OrderDeleted(id));
    OrderDeletedRemoves(v, id);
    if FindRow(v.rows, id).Some? {
      var i := FindRow(v.rows, id).value;
      forall j | 0 <= j < |w.rows|
        ensures w.rows[j].order.id != id
      {
        if j >= i {
          assert w.rows[j] == v.rows[j + 1];
        }
      }
    }
  }

  // ---------------------------------------------------------------------------
  // The sort toggle
  // ---------------------------------------------------------------------------

  /** `sortOrder === 'desc' ? 'asc' : 'desc'`. */
  function ToggleSort(sortOrder: string): (r: string)
    ensures r == "asc" <==> sortOrder == "desc"
    ensures r == "asc" || r == "desc"
  {
    if sortOrder == "desc" then "asc" else "desc"
  }

  /** Clicking the toggle: the flipped order, and the `sort` query value
      it fetches `/admin/orders` with. */
  function ClickToggleSort(v: View): (r: (View, string))
    ensures r.0 == v.(sortOrder := r.1)
    ensures r.1 == "asc" <==> v.sortOrder == "desc"
    ensures r.1 == "asc" || r.1 == "desc"
  {
    var next := ToggleSort(v.sortOrder);
    (v.(sortOrder := next), next)
  }

  /** The toggle's fetch resolves with the listing, which is rendered. */
  function ReceiveListing(v: View, orders: seq<Order>): (r: View)
    ensures r.menu == v.menu && r.sortOrder == v.sortOrder
    ensures |r.rows| == |orders|
    ensures forall i :: 0 <= i < |orders| ==> r.rows[i] == CreateOrderRow(orders[|orders| - 1 - i])
  {
    RenderOrdersReverses(orders);
    v.(rows := RenderOrders(orders))
  }

  /** The toggle's state after `n` clicks on a freshly loaded page. */
  function SortAfterClicks(n: nat): string {
    if n == 0 then LoadedView.sortOrder else ToggleSort(SortAfterClicks(n - 1))
  }

  /** The toggle alternates, starting from "desc": two clicks restore it. */
  lemma {:induction false} SortAlternates(n: nat)
    ensures SortAfterClicks(n) == (if n % 2 == 0 then "desc" else "asc")
    ensures SortAfterClicks(n + 2) == SortAfterClicks(n)
  {
    if n > 0 {
      SortAlternates(n - 1);
    }
  }

  // ---------------------------------------------------------------------------
  // The null checks placed before the dereference
  // ---------------------------------------------------------------------------

  /** `orderUpdated` and `orderDeleted` with the null check moved in front of
      the property read it was meant to guard: an event for an order with no
      row does nothing. A missing payload still throws at `.id`. */
  function ReceiveGuarded(v: View, e: Event): (r: Handled)
    ensures r.Threw? <==> e == OrderUpdated(Null)
    ensures (e.OrderUpdated? && e.row.Value? && FindRow(v.rows, e.row.value.id).None?)
            || (e.OrderDeleted? && FindRow(v.rows, e.deletedId).None?)
            ==> r == Done(v)
  {
    match e
    case OrderUpdated(Value(order)) =>
      if FindRow(v.rows, order.id).None? then Done(v) else Receive(v, e)
    case OrderDeleted(id) =>
      if FindRow(v.rows, id).None? then Done(v) else Receive(v, e)
    case _ => Receive(v, e)
  }

  /** The guarded handlers agree with admin.js wherever admin.js does not
      throw. */
  lemma GuardedAgreesWhenNoThrow(v: View, e: Event)
    requires Receive(v, e).Done?
    ensures ReceiveGuarded(v, e) == Receive(v, e)
  {
  }

  /** The page state is the same either way: where admin.js throws, the
      guarded handler does nothing, so `After` is also the view the guarded
      handlers leave and every result stated with `After` holds for them. */
  lemma AfterIsGuardedView(v: View, e: Event)
    ensures ReceiveGuarded(v, e).Done? ==> After(v, e) == ReceiveGuarded(v, e).view
    ensures ReceiveGuarded(v, e).Threw? ==> After(v, e) == v
  {
  }

  /** The input that shows the difference: an `orderUpdated` for order 7
      reaching an empty table throws in admin.js and is ignored when
      guarded; likewise `orderDeleted`. */
  lemma MissingRowThrowsAsWritten()
    ensures var o := Order(7, "2025-03-01 12:00:00", "5", map["Pizza" := 2], 1500, Value(Completed));
            && Receive(LoadedView, OrderUpdated(Value(o))) == Threw(NullSibling)
            && ReceiveGuarded(LoadedView, OrderUpdated(Value(o))) == Done(LoadedView)
            && Receive(LoadedView, OrderDeleted(7)) == Threw(NullParent)
            && ReceiveGuarded(LoadedView, OrderDeleted(7)) == Done(LoadedView)
  {
  }
}
