/**
  The server and the two pages together: what an admin page shows after a
  snapshot, after the sort toggle and after each broadcast, and what a
  customer's submitted cart becomes on the server and on the admin page.
 */
module Sync {
  import opened Schema
  import opened Sequences
  import opened Server
  import opened Admin
  import Cart

  // ---------------------------------------------------------------------------
  // Sorted listings are determined by their contents
  // ---------------------------------------------------------------------------

  lemma SameElementsBothEmpty(a: seq<int>, b: seq<int>)
    requires forall x :: x in a <==> x in b
    ensures a == [] <==> b == []
  {
    if a != [] {
      var x := a[0];
      assert x in a;
      assert x in b;
    }
    if b != [] {
      var x := b[0];
      assert x in b;
      assert x in a;
    }
  }

  /** Two strictly increasing sequences with the same elements are equal. */
  lemma {:induction false} IncreasingUnique(a: seq<int>, b: seq<int>)
    requires StrictlyIncreasing(a) && StrictlyIncreasing(b)
    requires forall x :: x in a <==> x in b
    ensures a == b
    decreases |a|
  {
    SameElementsBothEmpty(a, b);
    if a != [] {
      assert a[0] in b;
      assert b[0] in a;
      assert a[0] == b[0];
      forall x
        ensures x in a[1..] <==> x in b[1..]
      {
        if x in a[1..] {
          assert x in a && x != a[0];
          assert x in b[1..];
        }
        if x in b[1..] {
          assert x in b && x != b[0];
          assert x in a[1..];
        }
      }
      IncreasingUnique(a[1..], b[1..]);
      assert a == [a[0]] + a[1..];
      assert b == [b[0]] + b[1..];
    }
  }

  /** `rows` holds every item of the table `m` once, in increasing id order. */
  ghost predicate ListsMenu(rows: seq<MenuItem>, m: map<int, MenuItem>) {
    && StrictlyIncreasing(MenuIds(rows))
    && (forall i :: 0 <= i < |rows| ==> rows[i].id in m && m[rows[i].id] == rows[i])
    && (forall id :: id in m ==> m[id] in rows)
  }

  /** `rows` holds every order of the table `m` once, in increasing id order. */
  ghost predicate ListsOrders(rows: seq<Order>, m: map<int, Order>) {
    && StrictlyIncreasing(OrderIds(rows))
    && (forall i :: 0 <= i < |rows| ==> rows[i].id in m && m[rows[i].id] == rows[i])
    && (forall id :: id in m ==> m[id] in rows)
  }

  /** `rows` holds every order of the table `m` once, newest first. */
  ghost predicate ListsOrdersNewestFirst(rows: seq<Order>, m: map<int, Order>) {
    && StrictlyDecreasing(OrderIds(rows))
    && (forall i :: 0 <= i < |rows| ==> rows[i].id in m && m[rows[i].id] == rows[i])
    && (forall id :: id in m ==> m[id] in rows)
  }

  /** Any id-ordered list of exactly the stored menu items is the listing. */
  lemma MenuListingUnique(s: Store, rows: seq<MenuItem>)
    requires Valid(s) && ListsMenu(rows, s.menu)
    ensures rows == MenuRows(s)
  {
    var listing := MenuRows(s);
    forall x
      ensures x in MenuIds(rows) <==> x in MenuIds(listing)
    {
      if x in MenuIds(rows) {
        var i :| 0 <= i < |rows| && MenuIds(rows)[i] == x;
        var j :| 0 <= j < |listing| && listing[j] == s.menu[x];
        assert MenuIds(listing)[j] == x;
      }
      if x in MenuIds(listing) {
        var i :| 0 <= i < |listing| && MenuIds(listing)[i] == x;
        var j :| 0 <= j < |rows| && rows[j] == s.menu[x];
        assert MenuIds(rows)[j] == x;
      }
    }
    IncreasingUnique(MenuIds(rows), MenuIds(listing));
    assert |rows| == |listing|;
    forall i | 0 <= i < |rows|
      ensures rows[i] == listing[i]
    {
      assert MenuIds(rows)[i] == MenuIds(listing)[i];
    }
  }

  /** Any id-ordered list of exactly the stored orders is the listing. */
  lemma OrderListingUnique(s: Store, rows: seq<Order>)
    requires Valid(s) && ListsOrders(rows, s.orders)
    ensures rows == OrderRows(s)
  {
    var listing := OrderRows(s);
    forall x
      ensures x in OrderIds(rows) <==> x in OrderIds(listing)
    {
      if x in OrderIds(rows) {
        var i :| 0 <= i < |rows| && OrderIds(rows)[i] == x;
        var j :| 0 <= j < |listing| && listing[j] == s.orders[x];
        assert OrderIds(listing)[j] == x;
      }
      if x in OrderIds(listing) {
        var i :| 0 <= i < |listing| && OrderIds(listing)[i] == x;
        var j :| 0 <= j < |rows| && rows[j] == s.orders[x];
        assert OrderIds(rows)[j] == x;
      }
    }
    IncreasingUnique(OrderIds(rows), OrderIds(listing));
    assert |rows| == |listing|;
    forall i | 0 <= i < |rows|
      ensures rows[i] == listing[i]
    {
      assert OrderIds(rows)[i] == OrderIds(listing)[i];
    }
  }

  /** Newest-first: any list of exactly the stored orders with decreasing
      ids is the `ORDER BY id DESC` listing. */
  lemma OrderListingDescendingUnique(s: Store, rows: seq<Order>)
    requires Valid(s) && ListsOrdersNewestFirst(rows, s.orders)
    ensures rows == OrderRowsDescending(s)
  {
    var up := Reverse(rows);
    OrderIdsReverse(rows);
    forall id | id in s.orders
      ensures s.orders[id] in up
    {
      ReverseKeepsElements(rows, s.orders[id]);
    }
    OrderListingUnique(s, up);
    ReverseReverse(rows);
  }

  // ---------------------------------------------------------------------------
  // How each mutation changes the listings
  // ---------------------------------------------------------------------------

  lemma ListsMenuAppend(rows: seq<MenuItem>, m: map<int, MenuItem>, item: MenuItem)
    requires ListsMenu(rows, m)
    requires forall k :: k in m ==> k < item.id
    ensures ListsMenu(rows + [item], m[item.id := item])
  {
    var r := rows + [item];
    forall i, j | 0 <= i < j < |r|
      ensures MenuIds(r)[i] < MenuIds(r)[j]
    {
      assert r[i] == rows[i];
      if j == |rows| {
        assert rows[i].id in m;
      } else {
        assert r[j] == rows[j];
        assert MenuIds(rows)[i] < MenuIds(rows)[j];
      }
    }
    forall i | 0 <= i < |r|
      ensures r[i].id in m[item.id := item] && m[item.id := item][r[i].id] == r[i]
    {
      if i < |rows| {
        assert r[i] == rows[i];
        assert rows[i].id in m;
      }
    }
    var m' := m[item.id := item];
    forall id | id in m'
      ensures m'[id] in r
    {
      if id != item.id {
        assert m[id] in rows;
      } else {
        assert r[|rows|] == item;
      }
    }
  }

  lemma ListsMenuRemove(rows: seq<MenuItem>, m: map<int, MenuItem>, k: nat)
    requires forall id :: id in m ==> m[id].id == id
    requires ListsMenu(rows, m) && k < |rows|
    ensures ListsMenu(RemoveAt(rows, k), m - {rows[k].id})
  {
    var r := RemoveAt(rows, k);
    var m' := m - {rows[k].id};
    forall i, j | 0 <= i < j < |r|
      ensures MenuIds(r)[i] < MenuIds(r)[j]
    {
      var i' := if i < k then i else i + 1;
      var j' := if j < k then j else j + 1;
      assert r[i] == rows[i'] && r[j] == rows[j'];
      assert MenuIds(rows)[i'] < MenuIds(rows)[j'];
    }
    forall i | 0 <= i < |r|
      ensures r[i].id in m' && m'[r[i].id] == r[i]
    {
      var i' := if i < k then i else i + 1;
      assert r[i] == rows[i'];
      assert MenuIds(rows)[i'] != MenuIds(rows)[k];
    }
    forall x | x in m'
      ensures m'[x] in r
    {
      assert m[x] in rows;
      var j :| 0 <= j < |rows| && rows[j] == m[x];
      assert j != k;
      if j < k {
        assert r[j] == rows[j];
      } else {
        assert r[j - 1] == rows[j];
      }
    }
  }

  lemma ListsOrdersPrepend(rows: seq<Order>, m: map<int, Order>, order: Order)
    requires ListsOrdersNewestFirst(rows, m)
    requires forall k :: k in m ==> k < order.id
    ensures ListsOrdersNewestFirst([order] + rows, m[order.id := order])
  {
    var r := [order] + rows;
    forall i, j | 0 <= i < j < |r|
      ensures OrderIds(r)[i] > OrderIds(r)[j]
    {
      assert r[j] == rows[j - 1];
      if i == 0 {
        assert rows[j - 1].id in m;
      } else {
        assert r[i] == rows[i - 1];
        assert OrderIds(rows)[i - 1] > OrderIds(rows)[j - 1];
      }
    }
    forall i | 0 <= i < |r|
      ensures r[i].id in m[order.id := order] && m[order.id := order][r[i].id] == r[i]
    {
      if i > 0 {
        assert r[i] == rows[i - 1];
        assert rows[i - 1].id in m;
      }
    }
    var m' := m[order.id := order];
    forall id | id in m'
      ensures m'[id] in r
    {
      if id != order.id {
        assert m[id] in rows;
      } else {
        assert r[0] == order;
      }
    }
  }

  lemma ListsOrdersReplace(rows: seq<Order>, m: map<int, Order>, k: nat, row: Order)
    requires forall id :: id in m ==> m[id].id == id
    requires ListsOrdersNewestFirst(rows, m) && k < |rows| && rows[k].id == row.id
    ensures ListsOrdersNewestFirst(rows[k := row], m[row.id := row])
  {
    var r := rows[k := row];
    var m' := m[row.id := row];
    assert OrderIds(r) == OrderIds(rows);
    forall i | 0 <= i < |r|
      ensures r[i].id in m' && m'[r[i].id] == r[i]
    {
      if i != k {
        assert OrderIds(rows)[i] != OrderIds(rows)[k];
      }
    }
    forall x | x in m'
      ensures m'[x] in r
    {
      if x != row.id {
        assert m[x] in rows;
        var j :| 0 <= j < |rows| && rows[j] == m[x];
        assert j != k;
        assert r[j] == rows[j];
      } else {
        assert r[k] == row;
      }
    }
  }

  lemma ListsOrdersRemove(rows: seq<Order>, m: map<int, Order>, k: nat)
    requires forall id :: id in m ==> m[id].id == id
    requires ListsOrdersNewestFirst(rows, m) && k < |rows|
    ensures ListsOrdersNewestFirst(RemoveAt(rows, k), m - {rows[k].id})
  {
    var r := RemoveAt(rows, k);
    var m' := m - {rows[k].id};
    forall i, j | 0 <= i < j < |r|
      ensures OrderIds(r)[i] > OrderIds(r)[j]
    {
      var i' := if i < k then i else i + 1;
      var j' := if j < k then j else j + 1;
      assert r[i] == rows[i'] && r[j] == rows[j'];
      assert OrderIds(rows)[i'] > OrderIds(rows)[j'];
    }
    forall i | 0 <= i < |r|
      ensures r[i].id in m' && m'[r[i].id] == r[i]
    {
      var i' := if i < k then i else i + 1;
      assert r[i] == rows[i'];
      assert OrderIds(rows)[i'] != OrderIds(rows)[k];
    }
    forall x | x in m'
      ensures m'[x] in r
    {
      assert m[x] in rows;
      var j :| 0 <= j < |rows| && rows[j] == m[x];
      assert j != k;
      if j < k {
        assert r[j] == rows[j];
      } else {
        assert r[j - 1] == rows[j];
      }
    }
  }

  /** A new item whose id is above every stored id goes at the end of the
      id-ordered menu listing. */
  lemma MenuListingAppend(s: Store, t: Store, item: MenuItem)
    requires Valid(s) && Valid(t)
    requires t.menu == s.menu[item.id := item]
    requires forall k :: k in s.menu ==> k < item.id
    ensures MenuRows(t) == MenuRows(s) + [item]
  {
    ListsMenuAppend(MenuRows(s), s.menu, item);
    MenuListingUnique(t, MenuRows(s) + [item]);
  }

  /** Deleting a listed menu item drops its entry from the listing. */
  lemma MenuListingRemove(s: Store, t: Store, id: int, k: nat)
    requires Valid(s) && Valid(t)
    requires t.menu == s.menu - {id}
    requires k < |MenuRows(s)| && MenuRows(s)[k].id == id
    ensures MenuRows(t) == RemoveAt(MenuRows(s), k)
  {
    ListsMenuRemove(MenuRows(s), s.menu, k);
    MenuListingUnique(t, RemoveAt(MenuRows(s), k));
  }

  /** A new order whose id is above every stored id goes at the top of the
      newest-first listing. */
  lemma OrderListingPrepend(s: Store, t: Store, order: Order)
    requires Valid(s) && Valid(t)
    requires t.orders == s.orders[order.id := order]
    requires forall k :: k in s.orders ==> k < order.id
    ensures OrderRowsDescending(t) == [order] + OrderRowsDescending(s)
  {
    ListsOrdersPrepend(OrderRowsDescending(s), s.orders, order);
    OrderListingDescendingUnique(t, [order] + OrderRowsDescending(s));
  }

  /** Rewriting one stored order replaces it in place in the listing. */
  lemma OrderListingReplace(s: Store, t: Store, row: Order, k: nat)
    requires Valid(s) && Valid(t)
    requires t.orders == s.orders[row.id := row]
    requires k < |OrderRowsDescending(s)| && OrderRowsDescending(s)[k].id == row.id
    ensures OrderRowsDescending(t) == OrderRowsDescending(s)[k := row]
  {
    ListsOrdersReplace(OrderRowsDescending(s), s.orders, k, row);
    OrderListingDescendingUnique(t, OrderRowsDescending(s)[k := row]);
  }

  /** Deleting a listed order drops it from the listing. */
  lemma OrderListingRemove(s: Store, t: Store, id: int, k: nat)
    requires Valid(s) && Valid(t)
    requires t.orders == s.orders - {id}
    requires k < |OrderRowsDescending(s)| && OrderRowsDescending(s)[k].id == id
    ensures OrderRowsDescending(t) == RemoveAt(OrderRowsDescending(s), k)
  {
    ListsOrdersRemove(OrderRowsDescending(s), s.orders, k);
    OrderListingDescendingUnique(t, RemoveAt(OrderRowsDescending(s), k));
  }

  // ---------------------------------------------------------------------------
  // The admin page as a replica of the store
  // ---------------------------------------------------------------------------

  function RowOrders(rows: seq<Row>): (r: seq<Order>)
    ensures |r| == |rows|
    ensures forall i :: 0 <= i < |rows| ==> r[i] == rows[i].order
  {
    seq(|rows|, i requires 0 <= i < |rows| => rows[i].order)
  }

  /** The page lists the menu in id order and the orders newest first, each
      row as the store holds it (action cells aside). */
  ghost predicate Mirrors(v: View, s: Store) {
    Valid(s) && v.menu == MenuRows(s) && RowOrders(v.rows) == OrderRowsDescending(s)
  }

  /** The page after a sequence of events, each handled in turn. */
  function AfterAll(v: View, events: seq<Event>): View
    decreases |events|
  {
    if events == [] then v else AfterAll(After(v, events[0]), events[1..])
  }

  lemma AfterOne(v: View, e: Event)
    ensures AfterAll(v, [e]) == After(v, e)
  {
    assert [e][1..] == [];
  }

  /** A freshly connected admin page that receives both snapshots mirrors
      the store. */
  lemma SnapshotMirrors(s: Store, v: View)
    requires Valid(s)
    ensures Mirrors(AfterAll(v, Connect(s, false, false)), s)
  {
    var e0 := InitialMenu(MenuRows(s));
    var e1 := InitialOrders(OrderRows(s));
    assert Connect(s, false, false) == [e0, e1];
    var w1 := After(v, e0);
    assert AfterAll(v, [e0, e1]) == AfterAll(w1, [e1]) by {
      assert [e0, e1][1..] == [e1];
    }
    AfterOne(w1, e1);
    RowOrdersOfRender(OrderRows(s));
  }

  /** The two snapshots may arrive in either order: orders first, then the
      menu, leaves the page mirroring the store just the same. */
  lemma SnapshotsCommute(s: Store, v: View)
    requires Valid(s)
    ensures Mirrors(AfterAll(v, [InitialOrders(OrderRows(s)), InitialMenu(MenuRows(s))]), s)
  {
    var e0 := InitialOrders(OrderRows(s));
    var e1 := InitialMenu(MenuRows(s));
    var w1 := After(v, e0);
    assert AfterAll(v, [e0, e1]) == AfterAll(w1, [e1]) by {
      assert [e0, e1][1..] == [e1];
    }
    AfterOne(w1, e1);
    RowOrdersOfRender(OrderRows(s));
  }

  /** Rendering a listing shows its orders in the opposite order. */
  lemma RowOrdersOfRender(orders: seq<Order>)
    ensures RowOrders(RenderOrders(orders)) == Reverse(orders)
  {
    RenderOrdersReverses(orders);
  }

  /** `newOrder` puts the order on top of the rows. */
  lemma RowOrdersAfterNewOrder(v: View, order: Order)
    ensures After(v, NewOrder(order)).menu == v.menu
    ensures RowOrders(After(v, NewOrder(order)).rows) == [order] + RowOrders(v.rows)
  {
  }

  /** `orderUpdated` on a listed row changes that row's status only. */
  lemma RowOrdersAfterUpdate(v: View, order: Order, k: nat)
    requires FindRow(v.rows, order.id) == Some(k)
    ensures After(v, OrderUpdated(Value(order))).menu == v.menu
    ensures RowOrders(After(v, OrderUpdated(Value(order))).rows)
         == RowOrders(v.rows)[k := v.rows[k].order.(status := order.status)]
  {
    OrderUpdatedTouchesOnlyStatus(v, order);
  }

  /** `orderDeleted` on a listed row removes it. */
  lemma RowOrdersAfterDelete(v: View, id: int, k: nat)
    requires FindRow(v.rows, id) == Some(k)
    ensures After(v, OrderDeleted(id)).menu == v.menu
    ensures RowOrders(After(v, OrderDeleted(id)).rows) == RemoveAt(RowOrders(v.rows), k)
  {
    OrderDeletedRemoves(v, id);
  }

  // ---------------------------------------------------------------------------
  // Each store mutation and the matching broadcast keep the page a mirror
  // ---------------------------------------------------------------------------

  /** The listings depend on the tables alone, not on the id counters. */
  lemma ListingsFollowTables(s: Store, t: Store)
    requires Valid(s) && Valid(t)
    ensures s.menu == t.menu ==> MenuRows(s) == MenuRows(t)
    ensures s.orders == t.orders ==> OrderRowsDescending(s) == OrderRowsDescending(t)
  {
    if s.menu == t.menu {
      MenuListingUnique(t, MenuRows(s));
    }
    if s.orders == t.orders {
      OrderListingDescendingUnique(t, OrderRowsDescending(s));
    }
  }

  lemma RemoveAbsent<K, V>(m: map<K, V>, k: K)
    requires k !in m
    ensures m - {k} == m
  {
  }

  lemma MapUpdateExt<K, V>(m: map<K, V>, m': map<K, V>, k: K, x: V)
    requires m'.Keys == m.Keys + {k} && m'[k] == x
    requires forall j :: j in m && j != k ==> m'[j] == m[j]
    ensures m' == m[k := x]
  {
  }

  lemma MapSameExt<K, V>(m: map<K, V>, m': map<K, V>)
    requires m'.Keys == m.Keys
    requires forall j :: j in m ==> m'[j] == m[j]
    ensures m' == m
  {
  }

  /** A stored menu item has an entry on a mirroring page. */
  lemma MenuIdListed(s: Store, v: View, id: int)
    requires Mirrors(v, s)
    ensures id in s.menu ==> FindMenuEntry(v.menu, id).Some?
  {
    if id in s.menu {
      var j := IndexOf(v.menu, s.menu[id]);
      assert v.menu[j].id == id;
    }
  }

  /** A stored order has a row on a mirroring page. */
  lemma OrderIdListed(s: Store, v: View, id: int)
    requires Mirrors(v, s)
    ensures id in s.orders ==> FindRow(v.rows, id).Some?
  {
    if id in s.orders {
      var j := IndexOf(OrderRowsDescending(s), s.orders[id]);
      assert v.rows[j].order.id == id;
    }
  }

  /** The first row with a stored order's id shows the order as stored. */
  lemma ListedOrderRow(s: Store, v: View, id: int)
    requires Mirrors(v, s) && id in s.orders
    ensures FindRow(v.rows, id).Some?
    ensures v.rows[FindRow(v.rows, id).value].order == s.orders[id]
  {
    OrderIdListed(s, v, id);
    var k := FindRow(v.rows, id).value;
    var listing := OrderRowsDescending(s);
    assert v.rows[k].order == RowOrders(v.rows)[k] == listing[k];
    assert listing[k].id == id;
  }

  lemma MenuRemovalUnlisted(s: Store, t: Store, v: View, id: int)
    requires Mirrors(v, s) && Valid(t)
    requires t.menu == s.menu - {id} && t.orders == s.orders
    requires FindMenuEntry(v.menu, id).None?
    ensures Mirrors(After(v, FoodItemDeleted(id)), t)
  {
    MenuIdListed(s, v, id);
    RemoveAbsent(s.menu, id);
    ListingsFollowTables(s, t);
  }

  lemma MenuRemovalListed(s: Store, t: Store, v: View, id: int, k: nat)
    requires Mirrors(v, s) && Valid(t)
    requires t.menu == s.menu - {id} && t.orders == s.orders
    requires FindMenuEntry(v.menu, id) == Some(k)
    ensures Mirrors(After(v, FoodItemDeleted(id)), t)
  {
    assert After(v, FoodItemDeleted(id)) == v.(menu := RemoveAt(v.menu, k));
    MenuListingRemove(s, t, id, k);
    ListingsFollowTables(s, t);
  }

  /** Removing a menu id from the store and `foodItemDeleted` on the page
      keep the page a mirror, whether or not an item had the id. */
  lemma MirrorsAfterMenuRemoval(s: Store, t: Store, v: View, id: int)
    requires Mirrors(v, s) && Valid(t)
    requires t.menu == s.menu - {id} && t.orders == s.orders
    ensures Mirrors(After(v, FoodItemDeleted(id)), t)
  {
    match FindMenuEntry(v.menu, id)
    case None => MenuRemovalUnlisted(s, t, v, id);
    case Some(k) => MenuRemovalListed(s, t, v, id, k);
  }

  /** Rewriting a listed order's status in the store and `orderUpdated` on
      the page keep the page a mirror. */
  lemma MirrorsAfterStatusChange(s: Store, t: Store, v: View, row: Order)
    requires Mirrors(v, s) && Valid(t)
    requires row.id in s.orders && row == s.orders[row.id].(status := row.status)
    requires t.menu == s.menu && t.orders == s.orders[row.id := row]
    ensures Mirrors(After(v, OrderUpdated(Value(row))), t)
  {
    var id := row.id;
    ListedOrderRow(s, v, id);
    var k := FindRow(v.rows, id).value;
    RowOrdersAfterUpdate(v, row, k);
    OrderListingReplace(s, t, row, k);
    ListingsFollowTables(s, t);
  }

  lemma OrderRemovalUnlisted(s: Store, t: Store, v: View, id: int)
    requires Mirrors(v, s) && Valid(t)
    requires t.menu == s.menu && t.orders == s.orders - {id}
    requires FindRow(v.rows, id).None?
    ensures Mirrors(After(v, OrderDeleted(id)), t)
  {
    OrderIdListed(s, v, id);
    RemoveAbsent(s.orders, id);
    ListingsFollowTables(s, t);
  }

  lemma OrderRemovalListed(s: Store, t: Store, v: View, id: int, k: nat)
    requires Mirrors(v, s) && Valid(t)
    requires t.menu == s.menu && t.orders == s.orders - {id}
    requires FindRow(v.rows, id) == Some(k)
    ensures Mirrors(After(v, OrderDeleted(id)), t)
  {
    RowOrdersAfterDelete(v, id, k);
    OrderListingRemove(s, t, id, k);
    ListingsFollowTables(s, t);
  }

  /** Removing an order id from the store keeps the page a mirror once it
      handles `orderDeleted`; when no row had the id the handler throws and
      the page stays as it was, which the unchanged store still matches. */
  lemma MirrorsAfterOrderRemoval(s: Store, t: Store, v: View, id: int)
    requires Mirrors(v, s) && Valid(t)
    requires t.menu == s.menu && t.orders == s.orders - {id}
    ensures Mirrors(After(v, OrderDeleted(id)), t)
  {
    match FindRow(v.rows, id)
    case None => OrderRemovalUnlisted(s, t, v, id);
    case Some(k) => OrderRemovalListed(s, t, v, id, k);
  }

  // ---------------------------------------------------------------------------
  // Each handler keeps the page a mirror
  // ---------------------------------------------------------------------------

  lemma AddFoodItemMirrors(s: Store, v: View, name: Nullable<string>, price: Nullable<Price>, faults: Faults)
    requires Mirrors(v, s) && !faults.reread
    ensures var step := AddFoodItem(s, name, price, faults);
            Mirrors(AfterAll(v, step.broadcast), step.store)
  {
    var step := AddFoodItem(s, name, price, faults);
    if step.response.Succeeded() {
      var t := step.store;
      var item := t.menu[s.nextMenuId];
      AfterOne(v, NewFoodItem(item));
      MapUpdateExt(s.menu, t.menu, s.nextMenuId, item);
      MenuListingAppend(s, t, item);
      ListingsFollowTables(s, t);
    }
  }

  lemma DeleteFoodItemMirrors(s: Store, v: View, id: int, faults: Faults)
    requires Mirrors(v, s)
    ensures var step := DeleteFoodItem(s, id, faults);
            Mirrors(AfterAll(v, step.broadcast), step.store)
  {
    var step := DeleteFoodItem(s, id, faults);
    if step.response.Succeeded() {
      AfterOne(v, FoodItemDeleted(id));
      MirrorsAfterMenuRemoval(s, step.store, v, id);
    }
  }

  lemma SubmitOrderMirrors(
    s: Store, v: View, tableNumber: Nullable<string>, items: Nullable<map<string, int>>,
    totalPrice: Nullable<Price>, now: Timestamp, faults: Faults)
    requires Mirrors(v, s) && !faults.reread
    ensures var step := Server.SubmitOrder(s, tableNumber, items, totalPrice, now, faults);
            Mirrors(AfterAll(v, step.broadcast), step.store)
  {
    var step := Server.SubmitOrder(s, tableNumber, items, totalPrice, now, faults);
    if step.response.Succeeded() {
      var t := step.store;
      var order := t.orders[s.nextOrderId];
      AfterOne(v, NewOrder(order));
      RowOrdersAfterNewOrder(v, order);
      MapUpdateExt(s.orders, t.orders, s.nextOrderId, order);
      OrderListingPrepend(s, t, order);
      ListingsFollowTables(s, t);
    }
  }

  /** The fault-free update of a stored order, spelled out. */
  lemma UpdateListedStep(s: Store, id: int, status: Nullable<string>)
    requires id in s.orders
    ensures var row := s.orders[id].(status := status);
            UpdateStatus(s, id, status, NoFaults)
              == Step(s.(orders := s.orders[id := row]), Text("Status updated successfully."), [OrderUpdated(Value(row))])
  {
  }

  lemma UpdateListedMirrors(s: Store, v: View, id: int, status: Nullable<string>)
    requires Mirrors(v, s) && id in s.orders
    ensures var step := UpdateStatus(s, id, status, NoFaults);
            Mirrors(AfterAll(v, step.broadcast), step.store)
  {
    var row := s.orders[id].(status := status);
    UpdateListedStep(s, id, status);
    var t := s.(orders := s.orders[id := row]);
    AfterOne(v, OrderUpdated(Value(row)));
    MirrorsAfterStatusChange(s, t, v, row);
  }

  lemma UpdateUnlistedMirrors(s: Store, v: View, id: int, status: Nullable<string>)
    requires Mirrors(v, s) && id !in s.orders
    ensures var step := UpdateStatus(s, id, status, NoFaults);
            Mirrors(AfterAll(v, step.broadcast), step.store)
  {
    var t := UpdateStatus(s, id, status, NoFaults).store;
    AfterOne(v, OrderUpdated(Null));
    MapSameExt(s.orders, t.orders);
    ListingsFollowTables(s, t);
  }

  lemma UpdateStatusMirrors(s: Store, v: View, id: int, status: Nullable<string>, faults: Faults)
    requires Mirrors(v, s) && !faults.reread
    ensures var step := UpdateStatus(s, id, status, faults);
            Mirrors(AfterAll(v, step.broadcast), step.store)
  {
    if !faults.write {
      assert faults == NoFaults;
      if id in s.orders {
        UpdateListedMirrors(s, v, id, status);
      } else {
        UpdateUnlistedMirrors(s, v, id, status);
      }
    }
  }

  lemma DeleteOrderMirrors(s: Store, v: View, id: int, faults: Faults)
    requires Mirrors(v, s)
    ensures var step := DeleteOrder(s, id, faults);
            Mirrors(AfterAll(v, step.broadcast), step.store)
  {
    var step := DeleteOrder(s, id, faults);
    if step.response.Succeeded() {
      AfterOne(v, OrderDeleted(id));
      MirrorsAfterOrderRemoval(s, step.store, v, id);
    }
  }

  /** Every handled request keeps an admin page that mirrored the store
      mirroring it, provided the re-read before the broadcast succeeds. */
  lemma HandleMirrors(s: Store, v: View, req: Request, faults: Faults)
    requires Mirrors(v, s) && !faults.reread
    ensures var step := Handle(s, req, faults);
            Mirrors(AfterAll(v, step.broadcast), step.store)
  {
    match req
    case AddFoodItemRequest(name, price) => AddFoodItemMirrors(s, v, name, price, faults);
    case SubmitOrderRequest(t, items, total, now) => SubmitOrderMirrors(s, v, t, items, total, now, faults);
    case UpdateStatusRequest(id, status) => UpdateStatusMirrors(s, v, id, status, faults);
    case DeleteOrderRequest(id) => DeleteOrderMirrors(s, v, id, faults);
    case DeleteFoodItemRequest(id) => DeleteFoodItemMirrors(s, v, id, faults);
  }

  lemma {:induction false} AfterAllAppend(v: View, a: seq<Event>, b: seq<Event>)
    ensures AfterAll(v, a + b) == AfterAll(AfterAll(v, a), b)
    decreases |a|
  {
    if a != [] {
      assert (a + b)[1..] == a[1..] + b;
      AfterAllAppend(After(v, a[0]), a[1..], b);
    } else {
      assert a + b == b;
    }
  }

  predicate NoRereadFaults(reqs: seq<(Request, Faults)>) {
    forall i :: 0 <= i < |reqs| ==> !reqs[i].1.reread
  }

  /** An admin page that connected to a valid store and then received every
      broadcast mirrors the store after any run of requests whose re-reads
      succeed. */
  lemma {:induction false} RunMirrors(s: Store, v: View, reqs: seq<(Request, Faults)>)
    requires Mirrors(v, s) && NoRereadFaults(reqs)
    ensures Mirrors(AfterAll(v, Run(s, reqs).broadcast), Run(s, reqs).store)
    decreases |reqs|
  {
    if reqs != [] {
      var step := Handle(s, reqs[0].0, reqs[0].1);
      HandleMirrors(s, v, reqs[0].0, reqs[0].1);
      var v' := AfterAll(v, step.broadcast);
      assert NoRereadFaults(reqs[1..]) by {
        forall i | 0 <= i < |reqs[1..]|
          ensures !reqs[1..][i].1.reread
        {
          assert reqs[1..][i] == reqs[i + 1];
        }
      }
      RunMirrors(step.store, v', reqs[1..]);
      AfterAllAppend(v, step.broadcast, Run(step.store, reqs[1..]).broadcast);
    }
  }

  /** A failed re-read breaks the mirror: the item is stored but the page
      never hears of it. */
  lemma RereadFaultLosesItem()
    ensures var s := EmptyStore;
            var step := AddFoodItem(s, Value("Pizza"), Value(750), Faults(false, true));
            step.response.Succeeded() && step.broadcast == []
            && |MenuRows(step.store)| == 1 && AfterAll(LoadedView, step.broadcast).menu == []
  {
    EmptyStoreValid();
  }

  // ---------------------------------------------------------------------------
  // Display order
  // ---------------------------------------------------------------------------

  /** The snapshot arrives oldest first and the page prepends each row, so
      the page shows the orders newest first. */
  lemma SnapshotShowsNewestFirst(s: Store, v: View)
    requires Valid(s)
    ensures StrictlyDecreasing(RowIds(After(v, InitialOrders(OrderRows(s))).rows))
  {
    var rows := OrderRows(s);
    RenderOrdersReverses(rows);
    ReverseOfIncreasing(OrderIds(rows));
  }

  /** After a click on the sort toggle, choosing "asc" shows the orders
      newest first and choosing "desc" shows them oldest first: the page's
      prepending reverses the order the server sorted them in. */
  lemma ToggleShowsOppositeOrder(s: Store, v: View)
    requires Valid(s)
    ensures var (v', query) := ClickToggleSort(v);
            var listing := ListOrders(s, Value(query), false).orders;
            var shown := ReceiveListing(v', listing).rows;
            && (query == "asc" ==> StrictlyDecreasing(RowIds(shown)))
            && (query == "desc" ==> StrictlyIncreasing(RowIds(shown)))
  {
    var (v', query) := ClickToggleSort(v);
    var listing := ListOrders(s, Value(query), false).orders;
    var ids := OrderIds(listing);
    RenderOrdersReverses(listing);
    if query == "asc" {
      ReverseOfIncreasing(ids);
    } else {
      ReverseOfDecreasing(ids);
    }
  }

  /** On a freshly loaded page the first click of the toggle fetches the
      ascending listing, which renders exactly as the snapshot did. */
  lemma FirstToggleLooksTheSame(s: Store)
    requires Valid(s)
    ensures var (v', query) := ClickToggleSort(LoadedView);
            ReceiveListing(v', ListOrders(s, Value(query), false).orders).rows
              == After(LoadedView, InitialOrders(OrderRows(s))).rows
  {
    var (v', query) := ClickToggleSort(LoadedView);
    assert query == "asc";
    assert ListOrders(s, Value(query), false).orders == OrderRows(s);
  }

  // ---------------------------------------------------------------------------
  // End to end
  // ---------------------------------------------------------------------------

  /** A status update for an order id with no row still answers success, and
      the broadcast it makes throws in every admin page. */
  lemma UnknownOrderUpdateThrowsInAdmin(s: Store, v: View, id: int, status: Nullable<string>)
    requires id !in s.orders
    ensures var step := UpdateStatus(s, id, status, NoFaults);
            step.response.Succeeded() && |step.broadcast| == 1
            && Receive(v, step.broadcast[0]) == Threw(NullId)
  {
  }

  /** A page that missed a `newOrder` throws at the next status update of
      that order: the store had an empty orders table, the order was stored
      but its re-read failed, so the page never got the row, and
      update-status then broadcasts the row the page cannot find. */
  lemma MissedNewOrderThenUpdateThrows(v: View, table: string, items: map<string, int>, total: Price, now: Timestamp)
    requires Mirrors(v, EmptyStore)
    ensures var placed := Server.SubmitOrder(EmptyStore, Value(table), Value(items), Value(total), now, Faults(false, true));
            var update := UpdateStatus(placed.store, 1, Value(Completed), NoFaults);
            && placed.response.Succeeded() && placed.broadcast == []
            && update.response.Succeeded() && |update.broadcast| == 1
            && Receive(AfterAll(v, placed.broadcast), update.broadcast[0]) == Threw(NullSibling)
  {
    var placed := Server.SubmitOrder(EmptyStore, Value(table), Value(items), Value(total), now, Faults(false, true));
    assert OrderRowsDescending(EmptyStore) == [];
    assert |v.rows| == |RowOrders(v.rows)| == 0;
    assert AfterAll(v, []) == v;
  }

  /** Reloading the listing renders a completed order with a Delete button. */
  lemma ReloadOffersDelete(t: Store, id: int)
    requires Valid(t) && id in t.orders && t.orders[id].status == Value(Completed)
    ensures var reloaded := RenderOrders(ListOrders(t, Value("asc"), false).orders);
            exists i :: 0 <= i < |reloaded| && reloaded[i].order.id == id && reloaded[i].actions.delete
  {
    var listing := ListOrders(t, Value("asc"), false).orders;
    var j := IndexOf(listing, t.orders[id]);
    RenderOrdersReverses(listing);
    var reloaded := RenderOrders(listing);
    assert reloaded[|listing| - 1 - j] == CreateOrderRow(t.orders[id]);
  }

  /** Marking an order completed live leaves its row without a Delete
      button, while reloading the listing shows one for the same order. */
  lemma LiveCompletionVersusReload(s: Store, v: View, id: int)
    requires Mirrors(v, s) && id in s.orders
    ensures var step := UpdateStatus(s, id, Value(Completed), NoFaults);
            var live := AfterAll(v, step.broadcast).rows;
            var reloaded := RenderOrders(ListOrders(step.store, Value("asc"), false).orders);
            && (exists i :: 0 <= i < |live| && live[i].order.id == id && !live[i].actions.delete)
            && (exists i :: 0 <= i < |reloaded| && reloaded[i].order.id == id && reloaded[i].actions.delete)
  {
    var step := UpdateStatus(s, id, Value(Completed), NoFaults);
    var row := step.store.orders[id];
    AfterOne(v, OrderUpdated(Value(row)));
    ListedOrderRow(s, v, id);
    OrderUpdatedTouchesOnlyStatus(v, row);
    var k := FindRow(v.rows, id).value;
    assert After(v, OrderUpdated(Value(row))).rows[k].order.id == id;
    ReloadOffersDelete(step.store, id);
  }

  /** A cart the customer page submits becomes, on a fault-free server, a
      pending order with a fresh id holding exactly that cart and total,
      which every admin page puts at the top of its table with only the
      "Mark as Completed" action. */
  lemma SubmittedCartReachesAdmin(s: Store, v: View, req: Cart.OrderRequest, now: Timestamp)
    requires Valid(s)
    ensures var step := Server.SubmitOrder(s, Value(req.tableNumber), Value(req.items), Value(req.totalPrice), now, NoFaults);
            && step.response == Redirect("/")
            && |step.broadcast| == 1 && step.broadcast[0].NewOrder?
            && var order := step.broadcast[0].order;
            && order.id !in s.orders
            && order.items == req.items && order.totalPrice == req.totalPrice
            && order.tableNumber == req.tableNumber && order.status == Value(Pending)
            && After(v, step.broadcast[0]).rows[0] == Row(order, Actions(true, false, false))
  {
  }
}
