/**
  The customer page: the cart kept in the browser, keyed by item name, the
  running total, the submit guard and the quantity stepper. The DOM is gone;
  what is left is arithmetic over the cart map and the menu list the page
  received in `initialMenu`.
 */
module Cart {
  import opened Schema

  /** What `parseInt` makes of an input field's text. */
  datatype Parsed = NaN | Int(n: int)

  /** The cart object: item name -> quantity. */
  type Quantities = map<string, int>

  /** The invariant the page keeps: every quantity in the cart is positive. */
  predicate PositiveQuantities(cart: Quantities) {
    forall name :: name in cart ==> cart[name] > 0
  }

  /** `menu.find(item => item.id === id)`: the first item with that id. */
  function FindById(menu: seq<MenuItem>, id: int): (r: Option<MenuItem>)
    ensures r.None? <==> forall i :: 0 <= i < |menu| ==> menu[i].id != id
    ensures r.Some? ==> exists i :: 0 <= i < |menu| && menu[i] == r.value && r.value.id == id
                          && forall j :: 0 <= j < i ==> menu[j].id != id
  {
    if menu == [] then None
    else if menu[0].id == id then Some(menu[0])
    else
      var r := FindById(menu[1..], id);
      assert r.Some? ==> exists i :: 1 <= i < |menu| && menu[i] == r.value && r.value.id == id
                            && forall j :: 0 <= j < i ==> menu[j].id != id by {
        if r.Some? {
          var i :| 0 <= i < |menu[1..]| && menu[1..][i] == r.value && r.value.id == id
                   && forall j :: 0 <= j < i ==> menu[1..][j].id != id;
          assert menu[i + 1] == r.value;
          assert forall j :: 1 <= j < i + 1 ==> menu[j] == menu[1..][j - 1];
        }
      }
      r
  }

  /** `menu.find(item => item.name === name)`: the price of the first item
      with that name, which is the price the cart charges for the name. */
  function UnitPrice(menu: seq<MenuItem>, name: string): (r: Option<Price>)
    ensures r.None? <==> forall i :: 0 <= i < |menu| ==> menu[i].name != name
    ensures r.Some? ==> exists i :: 0 <= i < |menu| && menu[i].name == name && menu[i].price == r.value
                          && forall j :: 0 <= j < i ==> menu[j].name != name
  {
    if menu == [] then None
    else if menu[0].name == name then Some(menu[0].price)
    else
      var r := UnitPrice(menu[1..], name);
      assert r.Some? ==> exists i :: 1 <= i < |menu| && menu[i].name == name && menu[i].price == r.value
                            && forall j :: 0 <= j < i ==> menu[j].name != name by {
        if r.Some? {
          var i :| 0 <= i < |menu[1..]| && menu[1..][i].name == name && menu[1..][i].price == r.value
                   && forall j :: 0 <= j < i ==> menu[1..][j].name != name;
          assert menu[i + 1] == menu[1..][i];
          assert forall j :: 1 <= j < i + 1 ==> menu[j] == menu[1..][j - 1];
        }
      }
      r
  }

  /** The quantity a name currently has (`cart[name] || 0`). */
  function Held(cart: Quantities, name: string): int {
    if name in cart then cart[name] else 0
  }

  /** The guard of `addToCart`: a number, and above zero. */
  predicate ValidQuantity(quantity: Parsed) {
    quantity.Int? && quantity.n > 0
  }

  /** `addToCart(id)`: a valid quantity of a known item is added to the
      entry of that item's NAME; anything else leaves the cart alone. */
  function AddToCart(cart: Quantities, menu: seq<MenuItem>, id: int, quantity: Parsed): (r: Quantities)
    ensures !ValidQuantity(quantity) || FindById(menu, id).None? ==> r == cart
    ensures ValidQuantity(quantity) && FindById(menu, id).Some? ==>
      var name := FindById(menu, id).value.name;
      && r.Keys == cart.Keys + {name}
      && r[name] == Held(cart, name) + quantity.n
      && forall other :: other in cart && other != name ==> r[other] == cart[other]
    ensures PositiveQuantities(cart) ==> PositiveQuantities(r)
  {
    if !ValidQuantity(quantity) then cart
    else match FindById(menu, id)
      case None => cart
      case Some(item) => cart[item.name := Held(cart, item.name) + quantity.n]
  }

  /** `removeFromCart(name)`. */
  function RemoveFromCart(cart: Quantities, name: string): (r: Quantities)
    ensures r.Keys == cart.Keys - {name}
    ensures forall other :: other in r ==> r[other] == cart[other]
    ensures PositiveQuantities(cart) ==> PositiveQuantities(r)
  {
    cart - {name}
  }

  lemma RemoveFromCartIdempotent(cart: Quantities, name: string)
    ensures RemoveFromCart(RemoveFromCart(cart, name), name) == RemoveFromCart(cart, name)
  {
  }

  /** Two menu items that share a name fill the same cart entry. */
  lemma SameNameMerges(cart: Quantities, menu: seq<MenuItem>, id1: int, id2: int, q1: int, q2: int)
    requires FindById(menu, id1).Some? && FindById(menu, id2).Some?
    requires FindById(menu, id1).value.name == FindById(menu, id2).value.name
    requires q1 > 0 && q2 > 0
    ensures var name := FindById(menu, id1).value.name;
            var r := AddToCart(AddToCart(cart, menu, id1, Int(q1)), menu, id2, Int(q2));
            r.Keys == cart.Keys + {name} && r[name] == Held(cart, name) + q1 + q2
  {
  }

  // ---------------------------------------------------------------------------
  // The total (`updateCart`)
  // ---------------------------------------------------------------------------

  /** One cart row's contribution: unit price times quantity, or nothing
      when no menu item has the name. */
  function LineTotal(menu: seq<MenuItem>, name: string, quantity: int): int {
    match UnitPrice(menu, name)
    case None => 0
    case Some(price) => price * quantity
  }

  /** The sum of the line totals of the names in `names`. */
  ghost function SumLines(cart: Quantities, menu: seq<MenuItem>, names: set<string>): int
    requires names <= cart.Keys
    decreases names
  {
    if names == {} then 0
    else
      var name :| name in names;
      LineTotal(menu, name, cart[name]) + SumLines(cart, menu, names - {name})
  }

  /** The total the cart is worth: the sum over all entries. */
  ghost function CartTotal(cart: Quantities, menu: seq<MenuItem>): int {
    SumLines(cart, menu, cart.Keys)
  }

  /** The sum does not depend on which name is taken first. */
  lemma {:induction false} SumLinesRemove(cart: Quantities, menu: seq<MenuItem>, names: set<string>, name: string)
    requires names <= cart.Keys && name in names
    ensures SumLines(cart, menu, names) == LineTotal(menu, name, cart[name]) + SumLines(cart, menu, names - {name})
    decreases names
  {
    var first :| first in names && SumLines(cart, menu, names)
      == LineTotal(menu, first, cart[first]) + SumLines(cart, menu, names - {first});
    if first != name {
      SumLinesRemove(cart, menu, names - {first}, name);
      SumLinesRemove(cart, menu, names - {name}, first);
      assert names - {first} - {name} == names - {name} - {first};
    }
  }

  /** Only the quantities of the summed names matter. */
  lemma {:induction false} SumLinesAgree(a: Quantities, b: Quantities, menu: seq<MenuItem>, names: set<string>)
    requires names <= a.Keys && names <= b.Keys
    requires forall name :: name in names ==> a[name] == b[name]
    ensures SumLines(a, menu, names) == SumLines(b, menu, names)
    decreases names
  {
    if names != {} {
      var name :| name in names && SumLines(a, menu, names)
        == LineTotal(menu, name, a[name]) + SumLines(a, menu, names - {name});
      SumLinesRemove(b, menu, names, name);
      SumLinesAgree(a, b, menu, names - {name});
    }
  }

  /** `updateCart`'s loop over `Object.entries(cart)`. */
  method UpdateCart(cart: Quantities, menu: seq<MenuItem>) returns (total: int)
    ensures total == CartTotal(cart, menu)
  {
    total := 0;
    var rest := cart.Keys;
    while rest != {}
      invariant rest <= cart.Keys
      invariant total + SumLines(cart, menu, rest) == CartTotal(cart, menu)
      decreases rest
    {
      var name :| name in rest;
      SumLinesRemove(cart, menu, rest, name);
      total := total + LineTotal(menu, name, cart[name]);
      rest := rest - {name};
    }
  }

  lemma EmptyCartTotal(menu: seq<MenuItem>)
    ensures CartTotal(map[], menu) == 0
  {
  }

  lemma LineTotalAdds(menu: seq<MenuItem>, name: string, a: int, b: int)
    ensures LineTotal(menu, name, a + b) == LineTotal(menu, name, a) + LineTotal(menu, name, b)
  {
    match UnitPrice(menu, name)
    case None =>
    case Some(price) =>
      assert price * (a + b) == price * a + price * b;
  }

  /** Setting one name's quantity changes the total by the difference of
      that name's line totals. */
  lemma TotalAfterSet(cart: Quantities, menu: seq<MenuItem>, name: string, q: int)
    ensures CartTotal(cart[name := q], menu)
      == CartTotal(cart, menu) - LineTotal(menu, name, Held(cart, name)) + LineTotal(menu, name, q)
  {
    var r := cart[name := q];
    var others := cart.Keys - {name};
    assert r.Keys - {name} == others;
    SumLinesRemove(r, menu, r.Keys, name);
    SumLinesAgree(r, cart, menu, others);
    if name in cart {
      SumLinesRemove(cart, menu, cart.Keys, name);
    } else {
      assert cart.Keys == others;
    }
  }

  /** Adding `q` of an item raises the total by `q` times the price of the
      first menu item with the same name (which need not be the item added). */
  lemma TotalAfterAdd(cart: Quantities, menu: seq<MenuItem>, id: int, q: int)
    requires q > 0 && FindById(menu, id).Some?
    ensures var name := FindById(menu, id).value.name;
            CartTotal(AddToCart(cart, menu, id, Int(q)), menu)
              == CartTotal(cart, menu) + LineTotal(menu, name, q)
  {
    var name := FindById(menu, id).value.name;
    assert AddToCart(cart, menu, id, Int(q)) == cart[name := Held(cart, name) + q];
    TotalAfterSet(cart, menu, name, Held(cart, name) + q);
    LineTotalAdds(menu, name, Held(cart, name), q);
  }

  /** Removing a name takes exactly its line total off the total. */
  lemma TotalAfterRemove(cart: Quantities, menu: seq<MenuItem>, name: string)
    ensures CartTotal(RemoveFromCart(cart, name), menu)
      == CartTotal(cart, menu) - (if name in cart then LineTotal(menu, name, cart[name]) else 0)
  {
    var r := RemoveFromCart(cart, name);
    if name in cart {
      SumLinesRemove(cart, menu, cart.Keys, name);
      SumLinesAgree(r, cart, menu, r.Keys);
    } else {
      assert r == cart;
    }
  }

  // ---------------------------------------------------------------------------
  // The page's state and its events
  // ---------------------------------------------------------------------------

  /** The confirmation popup: hidden, or shown with its close button armed
      by the last `submit`, which read the table number and the total. */
  datatype Popup = Hidden | Shown(tableNumber: string, totalPrice: Price)

  /** The customer page: its copy of the menu, the cart, the total the page
      last wrote into the `totalPrice` element, and the popup. */
  datatype Page = Page(menu: seq<MenuItem>, cart: Quantities, shownTotal: Price, popup: Popup)

  const FreshPage: Page := Page([], map[], 0, Hidden)

  /** The shown total is the total of the cart against the page's menu. */
  ghost predicate ShowsCartTotal(p: Page) {
    p.shownTotal == CartTotal(p.cart, p.menu)
  }

  /** `initialMenu`: the menu is replaced and re-rendered, but the cart and
      the shown total are not recomputed. */
  function ReceiveMenu(p: Page, menu: seq<MenuItem>): (r: Page)
    ensures r.menu == menu && r.cart == p.cart && r.shownTotal == p.shownTotal && r.popup == p.popup
  {
    p.(menu := menu)
  }

  /** Only the prices of the names in the cart matter to its total. */
  lemma {:induction false} SumLinesSamePrices(cart: Quantities, a: seq<MenuItem>, b: seq<MenuItem>, names: set<string>)
    requires names <= cart.Keys
    requires forall name :: name in names ==> UnitPrice(a, name) == UnitPrice(b, name)
    ensures SumLines(cart, a, names) == SumLines(cart, b, names)
    decreases names
  {
    if names != {} {
      var name :| name in names && SumLines(cart, a, names)
        == LineTotal(a, name, cart[name]) + SumLines(cart, a, names - {name});
      assert LineTotal(a, name, cart[name]) == LineTotal(b, name, cart[name]);
      SumLinesRemove(cart, b, names, name);
      SumLinesSamePrices(cart, a, b, names - {name});
    }
  }

  /** After `initialMenu` the shown total is still current exactly when the
      new menu prices the cart the same; in particular it is when every
      name in the cart keeps its unit price. */
  lemma ReceiveMenuKeepsTotal(p: Page, menu: seq<MenuItem>)
    requires ShowsCartTotal(p)
    ensures ShowsCartTotal(ReceiveMenu(p, menu)) <==> CartTotal(p.cart, menu) == CartTotal(p.cart, p.menu)
    ensures (forall name :: name in p.cart ==> UnitPrice(menu, name) == UnitPrice(p.menu, name))
            ==> ShowsCartTotal(ReceiveMenu(p, menu))
  {
    if forall name :: name in p.cart ==> UnitPrice(menu, name) == UnitPrice(p.menu, name) {
      SumLinesSamePrices(p.cart, menu, p.menu, p.cart.Keys);
    }
  }

  /** The "Add to Cart" button: on a valid quantity of a known item the cart
      grows and the total is recomputed; otherwise nothing changes. The
      popup is not involved. */
  method ClickAddToCart(p: Page, id: int, quantity: Parsed) returns (r: Page)
    ensures r.menu == p.menu && r.popup == p.popup
    ensures r.cart == AddToCart(p.cart, p.menu, id, quantity)
    ensures !ValidQuantity(quantity) || FindById(p.menu, id).None? ==> r == p
    ensures ValidQuantity(quantity) && FindById(p.menu, id).Some? ==> ShowsCartTotal(r)
    ensures PositiveQuantities(p.cart) ==> PositiveQuantities(r.cart)
  {
    if !ValidQuantity(quantity) {
      return p;
    }
    match FindById(p.menu, id) {
      case None =>
        return p;
      case Some(_) =>
        var cart := AddToCart(p.cart, p.menu, id, quantity);
        var total := UpdateCart(cart, p.menu);
        return p.(cart := cart, shownTotal := total);
    }
  }

  /** A cart row's "Remove" button. */
  method ClickRemove(p: Page, name: string) returns (r: Page)
    ensures r.menu == p.menu && r.popup == p.popup
    ensures r.cart == RemoveFromCart(p.cart, name)
    ensures ShowsCartTotal(r)
    ensures PositiveQuantities(p.cart) ==> PositiveQuantities(r.cart)
  {
    var cart := RemoveFromCart(p.cart, name);
    var total := UpdateCart(cart, p.menu);
    return p.(cart := cart, shownTotal := total);
  }

  /** The body `POST /submit-order` sends. */
  datatype OrderRequest = OrderRequest(tableNumber: string, items: Quantities, totalPrice: Price)

  /** The order form's `submit`: an empty cart is refused with an alert and
      nothing changes; otherwise the table number and the shown total are
      read and the popup is shown, its close button armed with them (a
      later submit re-arms it). Nothing is sent yet, and the cart is kept. */
  function SubmitForm(p: Page, tableNumber: string): (r: Page)
    ensures r.menu == p.menu && r.cart == p.cart && r.shownTotal == p.shownTotal
    ensures p.cart == map[] ==> r.popup == p.popup
    ensures p.cart != map[] ==> r.popup == Shown(tableNumber, p.shownTotal)
  {
    if |p.cart| == 0 then p else p.(popup := Shown(tableNumber, p.shownTotal))
  }

  /** The popup's close button: the popup is hidden, and the table number
      and total read at submit time are posted together with the cart as it
      is now; then the cart is emptied and the total re-rendered (as 0).
      With the popup hidden there is no button to press. */
  function ConfirmPopup(p: Page): (r: (Option<OrderRequest>, Page))
    ensures r.0.None? <==> p.popup.Hidden?
    ensures r.0.None? ==> r.1 == p
    ensures r.0.Some? ==> r.0.value == OrderRequest(p.popup.tableNumber, p.cart, p.popup.totalPrice)
    ensures r.0.Some? ==> r.1.cart == map[] && r.1.menu == p.menu && r.1.popup == Hidden && ShowsCartTotal(r.1)
    ensures PositiveQuantities(p.cart) ==> PositiveQuantities(r.1.cart)
  {
    match p.popup
    case Hidden => (None, p)
    case Shown(tableNumber, totalPrice) =>
      EmptyCartTotal(p.menu);
      (Some(OrderRequest(tableNumber, p.cart, totalPrice)), Page(p.menu, map[], 0, Hidden))
  }

  /** The armed popup would send what was submitted: a non-empty cart,
      priced at the total that was read. */
  ghost predicate PopupMatchesCart(p: Page) {
    p.popup.Shown? ==> p.cart != map[] && p.popup.totalPrice == CartTotal(p.cart, p.menu)
  }

  /** Submitting a current page arms the popup with the cart's own total,
      and confirming then sends a non-empty order priced at exactly its
      items' total. */
  lemma SubmitThenConfirm(p: Page, tableNumber: string)
    requires ShowsCartTotal(p) && p.cart != map[]
    ensures PopupMatchesCart(SubmitForm(p, tableNumber))
    ensures var sent := ConfirmPopup(SubmitForm(p, tableNumber)).0;
            && sent == Some(OrderRequest(tableNumber, p.cart, p.shownTotal))
            && sent.value.items != map[]
            && sent.value.totalPrice == CartTotal(sent.value.items, p.menu)
  {
  }

  /** The cart and the total are read at different times: removing the only
      item while the popup is shown (which leaves the cart empty and shows
      0, as `ClickRemove` does) sends an empty cart at the submitted total. */
  lemma RemoveUnderPopupSendsEmptyCart()
    ensures var p := Page([MenuItem(1, "Pizza", 750)], map["Pizza" := 2], 1500, Hidden);
            var armed := SubmitForm(p, "5");
            var edited := armed.(cart := RemoveFromCart(armed.cart, "Pizza"), shownTotal := 0);
            && armed.popup == Shown("5", 1500)
            && ConfirmPopup(edited).0 == Some(OrderRequest("5", map[], 1500))
  {
    var p := Page([MenuItem(1, "Pizza", 750)], map["Pizza" := 2], 1500, Hidden);
    assert RemoveFromCart(p.cart, "Pizza") == map[];
  }

  /** What a customer does on the page between two menu updates. */
  datatype Click =
    | AddClick(id: int, quantity: Parsed)
    | RemoveClick(name: string)
    | SubmitClick(tableNumber: string)
    | ConfirmClick

  /** The page as the customer first sees it: `initialMenu` has arrived at a
      fresh page, so the cart is empty, the shown total is current and no
      popup is armed. */
  lemma LoadedPageShowsTotal(menu: seq<MenuItem>)
    ensures var p := ReceiveMenu(FreshPage, menu);
            ShowsCartTotal(p) && PositiveQuantities(p.cart) && PopupMatchesCart(p)
  {
    EmptyCartTotal(menu);
  }

  /** Every add or remove click that follows a submit click has a confirm
      click somewhere between the two, so the cart is never edited while a
      popup armed in this run is shown. */
  predicate NoEditWhileArmed(clicks: seq<Click>) {
    forall i, j :: 0 <= i < j < |clicks| && clicks[i].SubmitClick?
                   && (clicks[j].AddClick? || clicks[j].RemoveClick?) ==>
      exists k :: i < k < j && clicks[k].ConfirmClick?
  }

  /** A run of clicks while the menu stays the same, from a current page:
      the shown total stays the cart's total and quantities stay positive,
      so every order sent holds only positive quantities. `editedUnderPopup`
      reports an add or remove that changed the cart while the popup was
      shown: it is raised only by such a click, and it stays down when the
      run starts without a popup and never edits while one is armed.
      Without it, every order sent is non-empty and priced at exactly the
      total of its items. */
  method Session(p: Page, clicks: seq<Click>) returns (sent: seq<OrderRequest>, r: Page, editedUnderPopup: bool)
    requires ShowsCartTotal(p) && PositiveQuantities(p.cart) && PopupMatchesCart(p)
    ensures r.menu == p.menu && ShowsCartTotal(r) && PositiveQuantities(r.cart)
    ensures |sent| <= |clicks|
    ensures forall k :: 0 <= k < |sent| ==> PositiveQuantities(sent[k].items)
    ensures editedUnderPopup ==>
      exists n :: 0 <= n < |clicks| && (clicks[n].AddClick? || clicks[n].RemoveClick?)
    ensures p.popup.Hidden? && NoEditWhileArmed(clicks) ==> !editedUnderPopup
    ensures !editedUnderPopup ==> PopupMatchesCart(r)
    ensures !editedUnderPopup ==> forall k :: 0 <= k < |sent| ==>
      sent[k].items != map[] && sent[k].totalPrice == CartTotal(sent[k].items, p.menu)
  {
    sent, r, editedUnderPopup := [], p, false;
    for n := 0 to |clicks|
      invariant r.menu == p.menu && ShowsCartTotal(r) && PositiveQuantities(r.cart)
      invariant |sent| <= n
      invariant forall k :: 0 <= k < |sent| ==> PositiveQuantities(sent[k].items)
      invariant editedUnderPopup ==>
        exists m :: 0 <= m < n && (clicks[m].AddClick? || clicks[m].RemoveClick?)
      invariant p.popup.Hidden? && r.popup.Shown? ==>
        exists i :: 0 <= i < n && clicks[i].SubmitClick?
                    && forall k :: i < k < n ==> !clicks[k].ConfirmClick?
      invariant p.popup.Hidden? && NoEditWhileArmed(clicks) ==> !editedUnderPopup
      invariant !editedUnderPopup ==> PopupMatchesCart(r)
      invariant !editedUnderPopup ==> forall k :: 0 <= k < |sent| ==>
        sent[k].items != map[] && sent[k].totalPrice == CartTotal(sent[k].items, p.menu)
    {
      var before := r;
      match clicks[n] {
        case AddClick(id, quantity) =>
          r := ClickAddToCart(r, id, quantity);
          editedUnderPopup := editedUnderPopup || (before.popup.Shown? && r.cart != before.cart);
        case RemoveClick(name) =>
          r := ClickRemove(r, name);
          editedUnderPopup := editedUnderPopup || (before.popup.Shown? && r.cart != before.cart);
        case SubmitClick(tableNumber) =>
          r := SubmitForm(r, tableNumber);
        case ConfirmClick =>
          var confirmed := ConfirmPopup(r);
          r := confirmed.1;
          if confirmed.0.Some? {
            sent := sent + [confirmed.0.value];
          }
      }
    }
  }

  /** After a new `initialMenu` the shown total can be stale: here the item
      in the cart has left the menu, yet the old total is still shown and
      would be sent. */
  lemma StaleTotalAfterMenu()
    ensures var p := Page([MenuItem(1, "Pizza", 750)], map["Pizza" := 2], 1500, Hidden);
            ShowsCartTotal(p) && !ShowsCartTotal(ReceiveMenu(p, []))
  {
    var p := Page([MenuItem(1, "Pizza", 750)], map["Pizza" := 2], 1500, Hidden);
    SumLinesRemove(p.cart, p.menu, p.cart.Keys, "Pizza");
    assert p.cart.Keys - {"Pizza"} == {};
    SumLinesRemove(p.cart, [], p.cart.Keys, "Pizza");
  }

  // ---------------------------------------------------------------------------
  // The quantity stepper (`changeQuantity`)
  // ---------------------------------------------------------------------------

  /** `Math.max(0, (parseInt(value) || 0) + amount)`. */
  function ChangeQuantity(value: Parsed, amount: int): (r: int)
    ensures var base := if value.Int? then value.n else 0;
            r >= 0 && r >= base + amount && (r == 0 || r == base + amount)
  {
    var base := if value.Int? then value.n else 0;
    if base + amount < 0 then 0 else base + amount
  }

  /** "+" followed by "-" restores any non-negative quantity, and "-" at
      zero stays at zero. */
  lemma StepperRoundTrip(n: int)
    requires n >= 0
    ensures ChangeQuantity(Int(ChangeQuantity(Int(n), 1)), -1) == n
    ensures ChangeQuantity(Int(0), -1) == 0
    ensures ChangeQuantity(NaN, -1) == 0
  {
  }
}
