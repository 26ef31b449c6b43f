# Restaurant order and menu synchronisation, in Dafny

A model of the real-time core of a small restaurant ordering app. The core has three parts:

- the Express/SQLite server (`restaurant-app/server.js`). It owns the `menu` and `orders` tables and answers the HTTP mutations. After each mutation it broadcasts a socket.io event to every connected page, and it sends each newly connected page a snapshot of both tables.
- the customer page (`restaurant-app/public/js/script.js`). It keeps a cart of item name → quantity, shows the cart's running total and submits the cart as an order.
- the admin page (`restaurant-app/admin/js/admin.js`). It keeps a menu list and an orders table up to date from the socket events, and offers each row's actions and a sort toggle.

Each part is a pure state machine over immutable data:

| module | models |
|---|---|
| `Schema` | the rows (`MenuItem`, `Order`), SQL `NULL` / JS `undefined` as `Nullable`, and the socket events |
| `Sequences` | order helpers: strictly increasing and decreasing id lists, reversal, the ascending listing of a set of ids |
| `Server` | the store (both tables plus the two AUTOINCREMENT counters), the listings, and the five mutating handlers, each giving the new store, the HTTP response and the broadcast. `Run` handles a sequence of requests one at a time. |
| `Cart` | the customer page: the cart operations, the total loop, the order submission and the quantity stepper |
| `Admin` | the admin page as a reducer over its view, one step per socket event; a handler that throws leaves the view unchanged |
| `Sync` | the three together. An admin page that received the snapshot and then every broadcast shows the server's tables after any run of requests whose re-reads succeed. The rows' action cells are set aside, since a live update writes them differently from a fresh render. A failed re-read loses an update (`Sync.RereadFaultLosesItem`). Also covers display order, the toggle, and carts reaching the admin table. |

Modelling choices:

- Prices and totals are integers (cents, say).
- The order timestamp is an opaque string passed to the handler.
- `items` is a map, not its JSON text.
- Storage faults are parameters. A handler gets `Faults(write, reread)`: a failed write answers 500 and broadcasts nothing. A failed re-read of the committed row still answers success but broadcasts nothing, because the code emits only `if (!err)`.
- `SELECT * FROM menu` and `SELECT * FROM orders` have no `ORDER BY`. They are modelled as listing rows in id order, which is what SQLite returns for a rowid table scanned without an index.

Where the code and its design description differ, the model follows the code:

- The server validates nothing. An empty name, a negative price, an empty `items` or a negative total are all stored. A missing field fails through the `NOT NULL` columns. An explicit JSON `null` does the same for every field except `items`, which is stored as the text "null" (see `Server.SubmitOrder` under "## Left out").
- `status` is stored as given, so any text, or `NULL`, can be stored. A completed order can go back to `pending` (`Server.StatusCanRevert`).
- For an id with no row, update-status answers success and broadcasts `orderUpdated` with no row, because the re-read finds nothing without an error (`Server.UpdateMissingOrder`). That event throws in every admin page (`Sync.UnknownOrderUpdateThrowsInAdmin`).
- Delete-order announces the id even when no row had it.

## Model

| member | source | states |
|---|---|---|
| Server.IdsNeverReused | restaurant-app/server.js:34-47 | AUTOINCREMENT over any run of requests: a row under an id handed out before the run is afterwards gone or the same row (an order may differ only in status), so a deleted id is never reused; the ids announced by `newFoodItem` and `newOrder` strictly increase and are all fresh |
| Server.StepKeepsOldRows | restaurant-app/server.js:59-150 | one request keeps the store well formed, never lowers a counter, never recreates a row below the counters, and announces only ids between the old and new counter |
| Server.MenuRows | restaurant-app/server.js:51 | `SELECT * FROM menu` returns each stored item exactly once, as stored, in increasing id order |
| Server.OrderRows | restaurant-app/server.js:198 | `SELECT * FROM orders` returns each stored order exactly once, as stored, in increasing id order |
| Server.OrderRowsDescending | restaurant-app/server.js:100 | `ORDER BY id DESC` returns each stored order exactly once, as stored, in decreasing id order |
| Server.GetMenu | restaurant-app/server.js:50-57 | fails with 500 "Error fetching menu." exactly on a storage fault, and otherwise returns every stored item once, in id order |
| Server.ListOrders | restaurant-app/server.js:96-107 | only the exact query value "asc" lists the orders oldest first; a missing or any other value lists them newest first; each stored order appears once; a fault answers 500 "Error fetching orders." |
| Server.Connect | restaurant-app/server.js:189-202 | a new connection gets the menu snapshot and the orders snapshot, each only if its read succeeds |
| Server.AddFoodItem | restaurant-app/server.js:59-73 | succeeds iff the write works and both name and price are present; the new item gets the next counter value, which no stored item has, and nothing else changes; broadcasts `newFoodItem` with the stored row unless the re-read fails; a failure answers 500 "Error adding food item." and changes nothing |
| Server.SubmitOrder | restaurant-app/server.js:75-94 | succeeds iff the write works and table, items and total are present; stores a `pending` order under a fresh id with exactly the given cart and total and redirects to "/"; broadcasts `newOrder` with it unless the re-read fails; a failure answers 500 "Error placing order." |
| Server.UpdateStatus | restaurant-app/server.js:110-126 | succeeds unless the write fails; rewrites the status of the order with that id, if any, and nothing else; broadcasts the re-read row, or no row for an unknown id |
| Server.DeleteOrder | restaurant-app/server.js:128-138 | removes exactly that id, whatever the order's status, and announces the id even if no row had it |
| Server.DeleteFoodItem | restaurant-app/server.js:140-150 | removes exactly that menu id and announces it; stored orders are untouched |
| Server.DeleteOrderIdempotent | restaurant-app/server.js:128-138 | deleting an order twice gives the same store, response and broadcast as deleting it once |
| Server.DeleteFoodItemIdempotent | restaurant-app/server.js:140-150 | deleting a menu item twice gives the same store, response and broadcast as deleting it once |
| Server.DeleteMissingOrderOnlyBroadcasts | restaurant-app/server.js:128-138 | deleting an id no order has changes nothing but still broadcasts `orderDeleted` |
| Server.CompletingTwiceIsNoOp | restaurant-app/server.js:110-126 | marking a completed order completed again leaves the store unchanged |
| Server.StatusCanRevert | restaurant-app/server.js:110-126 | a completed order can be set back to pending |
| Server.UpdateMissingOrder | restaurant-app/server.js:110-126 | an update for an unknown id answers success, changes nothing and broadcasts `orderUpdated` with no row |
| Server.AtMostOneEvent | restaurant-app/server.js:59-150 | a failed request broadcasts nothing; a successful one broadcasts exactly one event of its own kind unless its re-read failed |
| Server.Run | restaurant-app/server.js:59-150 | handling requests one at a time keeps the store well formed, never lowers either AUTOINCREMENT counter, and broadcasts at most one event per request |
| Cart.FindById | restaurant-app/public/js/script.js:44-48 | finds the first menu item with that id, and finds nothing exactly when no item has it |
| Cart.UnitPrice | restaurant-app/public/js/script.js:67-73 | the price of the first menu item with that name, and none exactly when no item has the name |
| Cart.AddToCart | restaurant-app/public/js/script.js:35-57 | a quantity that is not a positive number, or an unknown id, leaves the cart unchanged; otherwise the item's name gains the quantity on top of what it held and the other entries are kept; quantities stay positive |
| Cart.SameNameMerges | restaurant-app/public/js/script.js:44-50 | two menu items with the same name fill the same cart entry, which then holds the sum of both quantities |
| Cart.RemoveFromCart | restaurant-app/public/js/script.js:114-117 | removes exactly that name and keeps the other entries |
| Cart.RemoveFromCartIdempotent | restaurant-app/public/js/script.js:114-117 | removing a name twice is the same as removing it once |
| Cart.UpdateCart | restaurant-app/public/js/script.js:59-111 | the loop's total is the sum over the cart of unit price times quantity, where a name missing from the menu adds nothing |
| Cart.EmptyCartTotal | restaurant-app/public/js/script.js:208-209 | an emptied cart totals zero |
| Cart.TotalAfterAdd | restaurant-app/public/js/script.js:50-54 | adding q of an item raises the total by q times the price of the first menu entry with that item's name |
| Cart.TotalAfterRemove | restaurant-app/public/js/script.js:114-117 | removing a name lowers the total by exactly that name's line total |
| Cart.ReceiveMenu | restaurant-app/public/js/script.js:6-9 | a new menu replaces the page's menu and keeps the cart and the shown total |
| Cart.ReceiveMenuKeepsTotal | restaurant-app/public/js/script.js:6-9 | after `initialMenu` the shown total stays current exactly when the new menu prices the cart the same, and it does whenever every name in the cart keeps its unit price |
| Cart.ClickAddToCart | restaurant-app/public/js/script.js:35-57 | after a successful add the shown total is the cart's total; a rejected add changes nothing; positive quantities stay positive |
| Cart.ClickRemove | restaurant-app/public/js/script.js:114-117 | after a removal the shown total is the cart's total; positive quantities stay positive |
| Cart.SubmitForm | restaurant-app/public/js/script.js:135-169 | an empty cart changes nothing; otherwise the page keeps its cart and total and shows the popup, armed with the table number and the total shown at that moment (a later submit re-arms it) |
| Cart.ConfirmPopup | restaurant-app/public/js/script.js:169-210 | with the popup hidden nothing happens; otherwise it hides the popup and posts the armed table number and total with the cart as it is at the click, then empties the cart and shows a total of 0; positive quantities stay positive |
| Cart.SubmitThenConfirm | restaurant-app/public/js/script.js:135-210 | submitting a non-empty cart whose shown total is current and then confirming sends that cart, non-empty and priced at exactly its items' total |
| Cart.RemoveUnderPopupSendsEmptyCart | restaurant-app/public/js/script.js:145-179 | concrete case: the total is read at submit and the cart at confirm, so removing the only item while the popup is shown sends an empty cart at the old total |
| Cart.LoadedPageShowsTotal | restaurant-app/public/js/script.js:1-9 | once the first menu reaches a fresh page, the shown total is current, the (empty) cart holds only positive quantities and no popup is armed |
| Cart.Session | restaurant-app/public/js/script.js:35-210 | over any run of add, remove, submit and confirm clicks while the menu stays the same, the shown total stays the cart's total and quantities stay positive, so every order sent holds positive quantities; unless an add or remove changed the cart while the popup was shown, every order sent is also non-empty and priced at exactly its items' total; the returned flag that reports such an edit can be set only by an add or remove click, and stays clear for every run that starts without a popup and has a confirm between each submit and any later add or remove |
| Cart.StaleTotalAfterMenu | restaurant-app/public/js/script.js:6-9 | concrete case: after a menu update drops an item, the shown total no longer matches the cart |
| Cart.ChangeQuantity | restaurant-app/public/js/script.js:214-219 | the stepper never goes below zero: unparsable text counts as 0, and the result is the value plus the step, or 0 |
| Cart.StepperRoundTrip | restaurant-app/public/js/script.js:214-219 | "+" then "-" restores any non-negative quantity; "-" at 0 or on unparsable text gives 0 |
| Admin.CreateOrderRow | restaurant-app/admin/js/admin.js:152-172 | a row rendered from a completed order offers the "Completed" label and Delete; any other status, including none, offers only "Mark as Completed" |
| Admin.LiveActions | restaurant-app/admin/js/admin.js:63-67 | the action cell a live update writes never has a Delete button |
| Admin.RenderOrders | restaurant-app/admin/js/admin.js:142-150 | emptying the table and prepending each order shows one row per order, row i rendered from the i-th order counted from the end |
| Admin.RenderOrdersReverses | restaurant-app/admin/js/admin.js:142-150 | the rendered table's order ids are the arriving ids reversed |
| Admin.RenderMenu | restaurant-app/admin/js/admin.js:107-115 | emptying the list and appending each item shows exactly the items, in the order they arrived |
| Admin.FindRow | restaurant-app/admin/js/admin.js:56 | `querySelector` on the status cell class finds the first row with that order id (no earlier row has it), or none exactly when no row has it |
| Admin.FindMenuEntry | restaurant-app/admin/js/admin.js:42 | finds the first menu entry with that id, or none exactly when no entry has it |
| Admin.Receive | restaurant-app/admin/js/admin.js:27-75 | a handler throws exactly on `orderUpdated` with no row, or on `orderUpdated`/`orderDeleted` for an id with no row; otherwise it keeps the sort order |
| Admin.NewRowsPlacement | restaurant-app/admin/js/admin.js:35-53 | `newOrder` puts the row on top and moves nothing else; `newFoodItem` appends the item at the bottom |
| Admin.FoodItemDeletedRemoves | restaurant-app/admin/js/admin.js:41-46 | `foodItemDeleted` for an unlisted id changes nothing; otherwise it removes the first entry with that id and keeps the others in order |
| Admin.FoodItemDeletedLeavesNone | restaurant-app/admin/js/admin.js:41-46 | with distinct ids on the list, no entry with the deleted id remains |
| Admin.OrderUpdatedTouchesOnlyStatus | restaurant-app/admin/js/admin.js:55-68 | `orderUpdated` rewrites only the status and action cells of the first row with the id; the other cells keep their rendered values |
| Admin.LiveCompletionDropsDelete | restaurant-app/admin/js/admin.js:63-67 | a row completed live shows the "Completed" label without the Delete button that a row rendered as completed has |
| Admin.OrderDeletedRemoves | restaurant-app/admin/js/admin.js:70-75 | `orderDeleted` removes the first row with the id and keeps the others in order; with no such row it throws |
| Admin.RepeatedOrderDeletedThrows | restaurant-app/admin/js/admin.js:70-75 | with distinct row ids, a second `orderDeleted` for the same id throws |
| Admin.ToggleSort | restaurant-app/admin/js/admin.js:213-215 | the toggle turns "desc" into "asc" and anything else into "desc" |
| Admin.ClickToggleSort | restaurant-app/admin/js/admin.js:213-219 | a click flips the page's sort order and fetches the listing with the new value |
| Admin.ReceiveListing | restaurant-app/admin/js/admin.js:219-223 | the fetched listing replaces the rows: row i is the rendering of the listing's i-th order from the end, and the menu and sort order are kept |
| Admin.SortAlternates | restaurant-app/admin/js/admin.js:213-215 | from the loaded page, odd-numbered clicks fetch "asc" and even-numbered clicks fetch "desc" |
| Admin.ReceiveGuarded | restaurant-app/admin/js/admin.js:55-75 | with the null checks moved before the dereference, an event for an order with no row leaves the view as it was; only `orderUpdated` with no row throws |
| Admin.GuardedAgreesWhenNoThrow | restaurant-app/admin/js/admin.js:55-75 | wherever admin.js does not throw, the guarded handlers do exactly what it does |
| Admin.AfterIsGuardedView | restaurant-app/admin/js/admin.js:55-75 | the view after an event is the view the guarded handlers leave, so every result about the page holds for them too |
| Admin.MissingRowThrowsAsWritten | restaurant-app/admin/js/admin.js:55-75 | concrete case: `orderUpdated` and `orderDeleted` for order 7 on an empty table throw as written and do nothing when guarded |
| Sync.SnapshotMirrors | restaurant-app/admin/js/admin.js:27-33 | a page that receives both connection snapshots shows the menu in id order and the orders newest first, each exactly as stored |
| Sync.SnapshotsCommute | restaurant-app/server.js:189-202 | the two connection snapshots may arrive in either order; orders first and then the menu also leave the page mirroring the store |
| Sync.AddFoodItemMirrors | restaurant-app/server.js:59-73 | add-food-item plus its broadcast keeps a mirroring page mirroring, as long as the re-read succeeds |
| Sync.DeleteFoodItemMirrors | restaurant-app/server.js:140-150 | delete-food-item plus its broadcast keeps a mirroring page mirroring |
| Sync.SubmitOrderMirrors | restaurant-app/server.js:75-94 | submit-order plus its broadcast keeps a mirroring page mirroring, as long as the re-read succeeds |
| Sync.UpdateStatusMirrors | restaurant-app/server.js:110-126 | update-status plus its broadcast keeps a mirroring page mirroring, including for an unknown id, where the page throws and stays as it was |
| Sync.DeleteOrderMirrors | restaurant-app/server.js:128-138 | delete-order plus its broadcast keeps a mirroring page mirroring, including for an id with no row |
| Sync.RunMirrors | restaurant-app/server.js:59-150 | after any run of requests whose re-reads succeed, a page that mirrored the store and received every broadcast mirrors the final store |
| Sync.RereadFaultLosesItem | restaurant-app/server.js:67-71 | concrete case: a failed re-read stores the item, but the page never hears of it |
| Sync.SnapshotShowsNewestFirst | restaurant-app/admin/js/admin.js:142-150 | the orders snapshot arrives oldest first and is shown newest first |
| Sync.ToggleShowsOppositeOrder | restaurant-app/admin/js/admin.js:213-225 | after a toggle click, choosing "asc" shows the orders newest first and "desc" shows them oldest first |
| Sync.FirstToggleLooksTheSame | restaurant-app/admin/js/admin.js:213-225 | on a freshly loaded page, the first toggle click renders exactly the table the snapshot rendered |
| Sync.UnknownOrderUpdateThrowsInAdmin | restaurant-app/server.js:120-124 | an update for an unknown id answers success, and its one broadcast throws in every admin page |
| Sync.MissedNewOrderThenUpdateThrows | restaurant-app/admin/js/admin.js:55-68 | a page mirroring an empty store misses an order whose `newOrder` re-read failed (server.js:87-90); the next update-status for that order succeeds and its broadcast throws at the `nextElementSibling` read |
| Sync.ReloadOffersDelete | restaurant-app/admin/js/admin.js:164-168 | reloading the listing shows a completed order with a Delete button |
| Sync.LiveCompletionVersusReload | restaurant-app/admin/js/admin.js:55-68 | completing an order live leaves its row without Delete, while reloading the listing shows one |
| Sync.SubmittedCartReachesAdmin | restaurant-app/public/js/script.js:172-181 | a submitted cart becomes a pending order under a fresh id with that cart, table and total, and every admin page puts it on top with only "Mark as Completed" |

## Left out

- SQLite, Express, body parsing and socket.io transport: the store is a pair of maps, and each handler is one atomic step. The asynchronous interleaving of a write, its re-read and its emit with other requests is not modelled; requests are handled one at a time in arrival order.
- Storage errors are free parameters (`Faults`), not derived from a disk or driver model.
- `POST /send-bill` (Gmail OAuth2 mail) and the robot `fetch` calls on update-status and "return home": these are external side effects with no bearing on the stored state.
- The DOM: HTML text, styling, alerts, the cart-visibility toggle, the popup's message text and the toggle button's label text are not modelled; the pages are modelled as the data they display. Whether the popup stops clicks on the rest of the page is a matter of styling. The model lets every click through, as the script does not prevent any.
- Cart.ConfirmPopup: after a redirected response the page navigates to the redirect URL, which reloads it. The cart is already empty by then, and the reloaded page is a fresh page that gets `initialMenu` again (`Cart.LoadedPageShowsTotal`). The navigation itself is not modelled, and neither is the close handler staying assigned once the popup is hidden, since a hidden button cannot be clicked.
- Floating point: `REAL` prices, `parseFloat` of the shown total and `toFixed(2)` are modelled with integer amounts, so rounding is not modelled.
- JSON: `JSON.stringify(items)` on the server and `JSON.parse` in `createOrderRow` are modelled as passing the map through unchanged.
- `order_datetime` is a parameter of the handler, not read from a clock.
- Request ids are modelled as integers. An `id` missing from a body, or one that is not a number, is modelled as an id that no row has; SQLite type affinity is not modelled.
- Cart.AddToCart: does not model that `parseInt(input.value)` runs before the `!input` check, so a missing input field crashes instead of alerting. The page always renders an input for each menu item it lists.
- Cart.AddToCart: item names are assumed not to be `Object.prototype` property names. The cart is a plain object, so `cart[name] || 0` for a name such as "toString" reads an inherited function and stores a string, which makes the total NaN. An assignment to "__proto__" is dropped. The model treats the cart as a true map.
- Server.SubmitOrder: an explicit JSON `null` for `items` is modelled as a missing field (500, nothing stored). The server actually stores `JSON.stringify(null)`, the text "null", redirects and broadcasts `newOrder`, and every admin page then throws in `createOrderRow` at `Object.entries(null)`. Representing that would need an `items` value that is not a map in every stored order. The customer page always sends its cart object.
- Cart.UpdateCart: the cart table rows are not modelled, only the total.
- Admin.CreateOrderRow: a `NULL` status renders the text "null" in the status cell; only the action cell is modelled.
- The customer page ignores every socket event except `initialMenu`, so there is nothing else to model for it.

## Findings

| source | as written | input that shows it | evidently intended | confidence | as-written member | corrected member |
|---|---|---|---|---|---|---|
| restaurant-app/admin/js/admin.js:55-68 | `statusCell.nextElementSibling` is read before the `if (statusCell)` check, so an `orderUpdated` for an order with no row throws a TypeError and the check never matters | `orderUpdated` for an order that a page never got. For example, the `newOrder` re-read fails (server.js:87-90), or the page's `initialOrders` read fails (server.js:198-201), and update-status for that order follows (`Sync.MissedNewOrderThenUpdateThrows`). Once an order is deleted, an update finds no row and broadcasts no order, which throws earlier, at `.id` | an update for an order that is not shown is ignored | not executed | Admin.MissingRowThrowsAsWritten | Admin.ReceiveGuarded |
| restaurant-app/admin/js/admin.js:70-75 | `.parentElement` is read on the result of `querySelector` before the `if (row)` check, so an `orderDeleted` for an order with no row throws | `orderDeleted(7)` reaching a page with no row 7, for example a second delete of the same id (`Admin.RepeatedOrderDeletedThrows`) | a delete for an order that is not shown is ignored | not executed | Admin.MissingRowThrowsAsWritten | Admin.ReceiveGuarded |

`Admin.GuardedAgreesWhenNoThrow` proves that the corrected handlers agree with admin.js wherever admin.js does not throw. `Admin.AfterIsGuardedView` proves that the page state `After`, which every `Sync` result is stated with, is also the state the corrected handlers leave.
