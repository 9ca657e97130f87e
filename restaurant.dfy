/** The restaurant: a menu, an order registry keyed by order id in
    registration order, and the counter that issues new ids. */
module Restaurants {
  import opened Errors
  import opened Enums
  import opened Keys
  import opened MenuItems
  import opened OrderItems
  import opened Orders
  import opened Menus
  import opened Registries
  import opened Records

  /** The lines hold what the line records ask for: one line per key, in
      the order the keys first occur in the records, and for every key the
      total quantity of the records filed under that key. */
  ghost predicate HoldsLines(ls: seq<Line>, lines: seq<LineRecord>)
  {
    LineKeys(ls) == FirstKeys(lines) &&
    forall k :: QuantityOf(ls, k) == RecordQuantity(lines, k)
  }

  /** The order holds what the record asks for: its status and its lines. */
  ghost predicate LoadedFrom(o: Order, rec: OrderRecord)
    reads o, o.items
  {
    o.status == rec.status && HoldsLines(o.Lines(), rec.lines)
  }

  /** One step of loading an order's lines, on values: when the lines so far
      hold what the first `i` records ask for, the step `add_item` takes for
      record `i` succeeds exactly when its quantity is at least 1, and then
      the lines hold what the first `i + 1` records ask for. */
  lemma LoadStep(before: seq<Line>, after: seq<Line>, lines: seq<LineRecord>, i: nat, m: MenuItem, r: Outcome)
    requires i < |lines| && m.key == RecordKey(lines[i].item)
    requires HoldsLines(before, lines[..i])
    requires Step(r, after) == AddItemStep(before, m, lines[i].quantity)
    ensures r == if lines[i].quantity >= 1 then Pass else Fail(MenuValidationError)
    ensures r.Pass? ==> HoldsLines(after, lines[..i + 1])
  {
    AddItemStepQuantities(before, m, lines[i].quantity);
    assert lines[..i + 1][..i] == lines[..i];
    if r.Pass? && m.key !in LineKeys(before) {
      assert LineKeys(after) == LineKeys(before) + [m.key];
    }
  }

  /** The item object was built from the record: it has the record's name,
      price, category, description and availability. */
  ghost predicate BuiltFrom(m: MenuItem, rec: ItemRecord)
    reads m
  {
    m.name == rec.name && m.price == rec.price && m.category == rec.category &&
    m.description == rec.description && m.available == rec.available
  }

  /** The menu `items` is the menu `base` followed by one item built from
      each of the records `news`, in order. */
  ghost predicate MenuBuilt(base: seq<MenuItem>, items: seq<MenuItem>, news: seq<ItemRecord>)
    reads items
  {
    |items| == |base| + |news| && items[..|base|] == base &&
    forall p :: 0 <= p < |news| ==> BuiltFrom(items[|base| + p], news[p])
  }

  /** A menu built from item records holds its old keys and the records' keys, and no other. */
  lemma BuiltKeys(base: seq<MenuItem>, items: seq<MenuItem>, news: seq<ItemRecord>)
    requires MenuBuilt(base, items, news)
    requires forall x :: 0 <= x < |items| ==> items[x].Valid()
    ensures KeySet(ItemKeys(items)) == KeySet(ItemKeys(base)) + KeysOf(news)
  {
    forall k | k in ItemKeys(items) ensures k in KeySet(ItemKeys(base)) + KeysOf(news) {
      var x :| 0 <= x < |items| && ItemKeys(items)[x] == k;
      if x < |base| {
        assert items[x] == base[x] && ItemKeys(base)[x] == k;
      } else {
        assert RecordKey(news[x - |base|]) == k;
      }
    }
    forall k | k in KeySet(ItemKeys(base)) + KeysOf(news) ensures k in ItemKeys(items) {
      if k in KeysOf(news) {
        var p :| 0 <= p < |news| && RecordKey(news[p]) == k;
        assert ItemKeys(items)[|base| + p] == k;
      } else {
        var x :| 0 <= x < |base| && ItemKeys(base)[x] == k;
        assert items[x] == base[x] && ItemKeys(items)[x] == k;
      }
    }
  }

  /** An item on a menu is still on it once the menu has grown by appending. */
  lemma StillOnMenu(x: MenuItem, base: seq<MenuItem>, items: seq<MenuItem>)
    requires |base| <= |items| && items[..|base|] == base && x in base
    ensures x in items
  {
    var k :| 0 <= k < |base| && base[k] == x;
    assert items[k] == x;
  }

  /** A menu built from `first` and then from `rest` is built from `first + rest`. */
  lemma BuiltConcat(base: seq<MenuItem>, mid: seq<MenuItem>, after: seq<MenuItem>,
                    first: seq<ItemRecord>, rest: seq<ItemRecord>)
    requires MenuBuilt(base, mid, first)
    requires MenuBuilt(mid, after, rest)
    ensures MenuBuilt(base, after, first + rest)
  {
    forall p | 0 <= p < |first + rest| ensures BuiltFrom(after[|base| + p], (first + rest)[p]) {
      if p < |first| {
        assert (first + rest)[p] == first[p];
        assert after[|base| + p] == mid[|base| + p];
      } else {
        var q := p - |first|;
        assert (first + rest)[p] == rest[q];
        assert |base| + p == |mid| + q;
      }
    }
    assert after[..|base|] == mid[..|base|];
  }

  /** Resolving the records `a` and then the records `b`, each against the
      menu it finds, builds the menu that resolving `a + b` in one go builds. */
  lemma GrowStep(base: seq<MenuItem>, mid: seq<MenuItem>, after: seq<MenuItem>, a: seq<ItemRecord>, b: seq<ItemRecord>)
    requires MenuBuilt(base, mid, NewRecords(KeySet(ItemKeys(base)), a))
    requires MenuBuilt(mid, after, NewRecords(KeySet(ItemKeys(mid)), b))
    requires forall x :: 0 <= x < |after| ==> after[x].Valid()
    ensures MenuBuilt(base, after, NewRecords(KeySet(ItemKeys(base)), a + b))
  {
    var keys := KeySet(ItemKeys(base));
    var first := NewRecords(keys, a);
    assert forall x :: 0 <= x < |mid| ==> mid[x] == after[x];
    BuiltKeys(base, mid, first);
    NewRecordsCover(keys, a);
    NewRecordsAppend(keys, a, b);
    assert KeySet(ItemKeys(mid)) == keys + KeysOf(a);
    BuiltConcat(base, mid, after, first, NewRecords(KeySet(ItemKeys(mid)), b));
  }

  /** One step of loading the orders, on the menu: resolving the items of
      record `j`'s lines after those of the records before it builds the menu
      that resolving the items of the first `j + 1` records builds. */
  lemma OrdersMenuStep(base: seq<MenuItem>, mid: seq<MenuItem>, after: seq<MenuItem>, recs: seq<OrderRecord>, j: nat)
    requires j < |recs|
    requires MenuBuilt(base, mid, NewRecords(KeySet(ItemKeys(base)), ReferencedItems(recs[..j])))
    requires MenuBuilt(mid, after, NewRecords(KeySet(ItemKeys(mid)), LineRecordItems(recs[j].lines)))
    requires forall x :: 0 <= x < |after| ==> after[x].Valid()
    ensures MenuBuilt(base, after, NewRecords(KeySet(ItemKeys(base)), ReferencedItems(recs[..j + 1])))
  {
    GrowStep(base, mid, after, ReferencedItems(recs[..j]), LineRecordItems(recs[j].lines));
    assert recs[..j + 1][..j] == recs[..j];
  }

  /** After the menu records and then the items of every order line are
      resolved, the key of every menu record and of every line's item is in
      the menu. */
  lemma LoadKeysOnMenu(base: seq<MenuItem>, items: seq<MenuItem>, menuRecs: seq<ItemRecord>, recs: seq<OrderRecord>)
    requires MenuBuilt(base, items, NewRecords(KeySet(ItemKeys(base)), menuRecs + ReferencedItems(recs)))
    requires forall x :: 0 <= x < |items| ==> items[x].Valid()
    ensures forall i :: 0 <= i < |menuRecs| ==> RecordKey(menuRecs[i]) in ItemKeys(items)
    ensures forall j, i :: 0 <= j < |recs| && 0 <= i < |recs[j].lines| ==>
              RecordKey(recs[j].lines[i].item) in ItemKeys(items)
  {
    BuiltKeys(base, items, NewRecords(KeySet(ItemKeys(base)), menuRecs + ReferencedItems(recs)));
    LoadCovers(KeySet(ItemKeys(base)), menuRecs, recs);
  }

  /** After the items of a list of line records are resolved, every line's key is in the menu. */
  lemma LinesOnBuiltMenu(base: seq<MenuItem>, items: seq<MenuItem>, lines: seq<LineRecord>)
    requires MenuBuilt(base, items, NewRecords(KeySet(ItemKeys(base)), LineRecordItems(lines)))
    requires forall x :: 0 <= x < |items| ==> items[x].Valid()
    ensures forall i :: 0 <= i < |lines| ==> RecordKey(lines[i].item) in ItemKeys(items)
  {
    BuiltKeys(base, items, NewRecords(KeySet(ItemKeys(base)), LineRecordItems(lines)));
    NewRecordsCover(KeySet(ItemKeys(base)), LineRecordItems(lines));
    assert forall i :: 0 <= i < |lines| ==> RecordKey(LineRecordItems(lines)[i]) in KeysOf(LineRecordItems(lines));
  }

  /** Every line of an order loaded from a record refers to a key some line of the record carries. */
  lemma HeldKeysRecorded(ls: seq<Line>, lines: seq<LineRecord>)
    requires WellFormed(ls) && HoldsLines(ls, lines)
    ensures forall a :: 0 <= a < |ls| ==> ls[a].item.key in KeysOf(LineRecordItems(lines))
  {
    forall a | 0 <= a < |ls| ensures ls[a].item.key in KeysOf(LineRecordItems(lines)) {
      QuantityOfLine(ls, a);
      if forall i :: 0 <= i < |lines| ==> RecordKey(lines[i].item) != ls[a].item.key {
        RecordQuantityAbsent(lines, ls[a].item.key);
      }
    }
  }

  class Restaurant {
    const name: string
    const menu: Menu
    var orders: seq<Order>
    var nextOrderId: int

    /** The invariant: a consistent registry and a counter that can issue an id. */
    ghost predicate Valid()
      reads this, orders, LineObjects(orders), menu
    {
      nextOrderId >= 1 && Consistent(menu, orders)
    }

    /** Every registered id is below the counter, so the next id is new. */
    predicate CounterAhead()
      reads this`orders, this`nextOrderId
    {
      forall i :: 0 <= i < |orders| ==> orders[i].orderId < nextOrderId
    }

    /** The constructor on its success path; `Create` is the guarded form. */
    constructor (name: string)
      requires Strip(name) != []
      ensures Valid() && CounterAhead()
      ensures this.name == Strip(name) && fresh(menu) && menu.items == []
      ensures orders == [] && nextOrderId == 1
    {
      this.name := Strip(name);
      menu := new Menu();
      orders := [];
      nextOrderId := 1;
    }

    /** A name that is blank once stripped is refused; otherwise the
        restaurant starts with the stripped name, an empty menu, no orders
        and the counter at 1. */
    static method Create(name: string) returns (r: Result<Restaurant>)
      ensures Strip(name) == [] <==> r.Err?
      ensures r.Err? ==> r.error == MenuValidationError
      ensures r.Ok? ==> fresh(r.value) && r.value.Valid() && r.value.CounterAhead()
      ensures r.Ok? ==> r.value.name == Strip(name) && r.value.menu.items == []
      ensures r.Ok? ==> r.value.orders == [] && r.value.nextOrderId == 1
    {
      if Strip(name) == [] {
        return Err(MenuValidationError);
      }
      var restaurant := new Restaurant(name);
      r := Ok(restaurant);
    }

    /** Every order record that is the last with its id is what the order
        registered under that id holds. */
    ghost predicate HoldsRecords(recs: seq<OrderRecord>)
      reads this`orders, orders, LineObjects(orders)
    {
      forall j :: LastWithId(recs, j) ==>
        GetOrder(recs[j].orderId).Some? && LoadedFrom(GetOrder(recs[j].orderId).value, recs[j])
    }

    /** Every line of the order registered under `id`, if there is one,
        refers to one of the menu's own item objects. */
    ghost predicate OrderOnMenu(id: int)
      reads this`orders, orders, menu
    {
      GetOrder(id).Some? ==>
        forall a :: 0 <= a < |GetOrder(id).value.items| ==> GetOrder(id).value.items[a].item in menu.items
    }

    /** Every line of the orders registered under `ids` refers to one of the
        menu's own item objects. */
    ghost predicate OrdersOnMenu(ids: set<int>)
      reads this`orders, orders, menu
    {
      forall id :: id in ids ==> OrderOnMenu(id)
    }

    /** When no order but the one under `id0` was replaced or had its lines
        rewritten, and the menu only grew by appending, every other order
        whose lines referred to the menu's items still does. */
    twostate lemma OthersStayOnMenu(id0: int)
      requires forall id :: id != id0 ==> GetOrder(id) == old(GetOrder(id))
      requires forall i :: 0 <= i < |old(orders)| ==> old(orders)[i].items == old(orders[i].items)
      requires |old(menu.items)| <= |menu.items| && menu.items[..|old(menu.items)|] == old(menu.items)
      ensures forall id :: id != id0 && old(OrderOnMenu(id)) ==> OrderOnMenu(id)
    {
      forall id | id != id0 && old(OrderOnMenu(id)) ensures OrderOnMenu(id) {
        if GetOrder(id).Some? {
          var p := GetOrder(id).value;
          var i :| 0 <= i < |old(orders)| && old(orders)[i] == p;
          forall a | 0 <= a < |p.items| ensures p.items[a].item in menu.items {
            assert old(p.items[a].item in menu.items);
            StillOnMenu(p.items[a].item, old(menu.items), menu.items);
          }
        }
      }
    }

    /** When the lines of the orders under `ids` refer to the menu's items,
        their keys are on the menu. */
    lemma OnMenuKeys(ids: set<int>)
      requires OrdersOnMenu(ids)
      ensures forall id, a :: id in ids && GetOrder(id).Some? && 0 <= a < |GetOrder(id).value.items| ==>
                GetOrder(id).value.items[a].item.key in ItemKeys(menu.items)
    {
      forall id, a | id in ids && GetOrder(id).Some? && 0 <= a < |GetOrder(id).value.items|
        ensures GetOrder(id).value.items[a].item.key in ItemKeys(menu.items)
      {
        assert OrderOnMenu(id);
        var x := GetOrder(id).value.items[a].item;
        var k :| 0 <= k < |menu.items| && menu.items[k] == x;
        assert ItemKeys(menu.items)[k] == x.key;
      }
    }

    /** `get_order`: None exactly when no order is registered under `id`. */
    function GetOrder(id: int): (r: Option<Order>)
      reads this`orders
      ensures r.None? <==> id !in OrderIds(orders)
      ensures r.Some? ==> r.value in orders && r.value.orderId == id
    {
      match OrderIndex(orders, id)
      case Some(i) => Some(orders[i])
      case None => None
    }

    /** `require_order`: an unregistered id is a validation error. */
    function RequireOrder(id: int): (r: Result<Order>)
      reads this`orders
      ensures r.Err? <==> id !in OrderIds(orders)
      ensures r.Err? ==> r.error == MenuValidationError
      ensures r.Ok? ==> r.value in orders && r.value.orderId == id
    {
      match GetOrder(id)
      case None => Err(MenuValidationError)
      case Some(o) => Ok(o)
    }

    /** `list_orders`: every registered order once, in registration order;
        looking up each one's id finds it. */
    function ListOrders(): (r: seq<Order>)
      reads this, orders, LineObjects(orders), menu
      requires Valid()
      ensures |r| == |orders|
      ensures forall i, j :: 0 <= i < j < |r| ==> r[i] != r[j]
      ensures forall i :: 0 <= i < |r| ==> GetOrder(r[i].orderId) == Some(r[i])
    {
      LookupEach(orders);
      orders
    }

    /** `list_orders_by_status`: exactly the registered orders with status `s`. */
    function ListOrdersByStatus(s: OrderStatus): (r: seq<Order>)
      reads this`orders, orders
      ensures forall i :: 0 <= i < |r| ==> r[i] in orders && r[i].status == s
      ensures forall i :: 0 <= i < |orders| && orders[i].status == s ==> orders[i] in r
    {
      WithStatus(orders, s)
    }

    /** `_get_menu_item_or_raise`: the menu item under the key, or not found. */
    function GetMenuItemOrFail(name: string, category: Category): (r: Result<MenuItem>)
      reads menu
      ensures r.Err? <==> MakeKey(name, category) !in ItemKeys(menu.items)
      ensures r.Err? ==> r.error == MenuItemNotFoundError
      ensures r.Ok? ==> r.value in menu.items && r.value.key == MakeKey(name, category)
    {
      match menu.GetItem(name, category)
      case None => Err(MenuItemNotFoundError)
      case Some(m) => Ok(m)
    }

    /** `total_revenue`: the sum of the live totals of the Completed orders. */
    function TotalRevenue(): (r: int)
      reads this`orders, orders, LineObjects(orders), LineItems(orders)
      ensures r == SumTotals(ListOrdersByStatus(Completed))
    {
      Revenue(orders)
    }

    /** When only the order at `k` and its old line objects may have changed,
        every other order and each of its line objects is untouched: ids are
        distinct and line objects are not shared. */
    twostate lemma OthersUntouched(k: nat)
      requires old(Consistent(menu, orders)) && orders == old(orders) && k < |orders|
      requires forall i :: 0 <= i < |orders| && i != k ==> unchanged(orders[i])
      requires forall x :: x in old(LineObjects(orders)) && x !in old(orders[k].items) ==> unchanged(x)
      ensures forall i, a :: 0 <= i < |orders| && i != k && 0 <= a < |orders[i].items| ==>
                unchanged(orders[i].items[a])
    {
      forall i, a | 0 <= i < |orders| && i != k && 0 <= a < |orders[i].items|
        ensures unchanged(orders[i].items[a])
      {
        assert old(orders[i].items[a] in LineObjects(orders));
        assert orders[i].items[a] !in old(orders[k].items) by {
          forall b | 0 <= b < |old(orders[k].items)| ensures orders[i].items[a] != old(orders[k].items)[b] {
            assert old(orders[i].items[a] != orders[k].items[b]);
          }
        }
      }
    }

    /** Changing the lines of the order at position `k`, while every other
        order and line object is left alone and any new line object is
        freshly allocated, keeps the registry consistent. */
    twostate lemma OrderChanged(k: nat)
      requires old(Consistent(menu, orders)) && orders == old(orders) && k < |orders|
      requires unchanged(menu)
      requires forall i :: 0 <= i < |orders| && i != k ==> unchanged(orders[i])
      requires forall x :: x in old(LineObjects(orders)) && x !in old(orders[k].items) ==> unchanged(x)
      requires orders[k].Valid()
      requires forall x :: x in orders[k].items ==> x in old(orders[k].items) || fresh(x)
      ensures Consistent(menu, orders)
      ensures forall i :: 0 <= i < |orders| && i != k ==> orders[i].Lines() == old(orders[i].Lines())
    {
      OthersUntouched(k);
      forall i | 0 <= i < |orders| && i != k
        ensures orders[i].Valid() && orders[i].Lines() == old(orders[i].Lines())
      {
        assert old(orders[i].Valid());
      }
      var r := orders;
      forall i, j, a, b | 0 <= i < |r| && 0 <= j < |r| && i != j && 0 <= a < |r[i].items| && 0 <= b < |r[j].items|
        ensures r[i].items[a] != r[j].items[b]
      {
        if i == k {
          if r[i].items[a] in old(r[k].items) {
            var a' :| 0 <= a' < |old(r[k].items)| && old(r[k].items)[a'] == r[i].items[a];
            assert old(r[k].items[a'] != r[j].items[b]);
          }
        } else if j == k {
          if r[j].items[b] in old(r[k].items) {
            var b' :| 0 <= b' < |old(r[k].items)| && old(r[k].items)[b'] == r[j].items[b];
            assert old(r[i].items[a] != r[k].items[b']);
          }
        } else {
          assert old(r[i].items[a] != r[j].items[b]);
        }
      }
    }

    /** Changing only the lines of the order at position `k` keeps the
        restaurant valid, leaves every status, the counter and the menu alone,
        keeps the lines of every order under another id, and the order is
        still the one found under its id. */
    twostate lemma LinesChanged(k: nat)
      requires old(Valid()) && orders == old(orders) && k < |orders|
      requires unchanged(menu) && nextOrderId == old(nextOrderId)
      requires forall i :: 0 <= i < |orders| && i != k ==> unchanged(orders[i])
      requires forall x :: x in old(LineObjects(orders)) && x !in old(orders[k].items) ==> unchanged(x)
      requires orders[k].Valid() && orders[k].status == old(orders[k].status)
      requires forall x :: x in orders[k].items ==> x in old(orders[k].items) || fresh(x)
      ensures Valid()
      ensures GetOrder(orders[k].orderId) == Some(orders[k])
      ensures forall i :: 0 <= i < |orders| ==> orders[i].status == old(orders[i].status)
      ensures forall i :: 0 <= i < |orders| && orders[i].orderId != orders[k].orderId ==>
                orders[i].Lines() == old(orders[i].Lines())
      ensures forall i :: 0 <= i < |orders| && orders[i].orderId != orders[k].orderId ==>
                orders[i].items == old(orders[i].items)
      ensures forall i, a :: 0 <= i < |orders| && 0 <= a < |orders[i].items| ==>
                orders[i].items[a] in old(LineObjects(orders)) || fresh(orders[i].items[a])
    {
      OrderChanged(k);
      OrderIndexDistinct(orders, k);
      forall i, a | 0 <= i < |orders| && 0 <= a < |orders[i].items|
        ensures orders[i].items[a] in old(LineObjects(orders)) || fresh(orders[i].items[a])
      {
        if i == k && orders[i].items[a] in old(orders[k].items) {
          var b :| 0 <= b < |old(orders[k].items)| && old(orders[k].items)[b] == orders[i].items[a];
          assert old(orders[k].items[b] in LineObjects(orders));
        } else if i != k {
          assert old(orders[i].items[a] in LineObjects(orders));
        }
      }
    }

    /** `add_item_to_order`: an unknown id is a validation error, then an item
        missing from the menu is not found; otherwise the order's own
        `add_item` decides what happens to its lines. The lines of every other
        order, every status and the menu stay as they were. */
    method AddItemToOrder(id: int, name: string, category: Category, quantity: int) returns (r: Outcome)
      requires Valid()
      modifies orders, LineObjects(orders)
      ensures Valid() && unchanged(menu)
      ensures id !in OrderIds(orders) ==> r == Fail(MenuValidationError)
      ensures id in OrderIds(orders) && MakeKey(name, category) !in ItemKeys(menu.items) ==>
                r == Fail(MenuItemNotFoundError)
      ensures id in OrderIds(orders) && MakeKey(name, category) in ItemKeys(menu.items) ==>
                var o := GetOrder(id).value;
                Step(r, o.Lines()) == AddItemStep(old(o.Lines()), GetMenuItemOrFail(name, category).value, quantity)
      ensures forall i :: 0 <= i < |orders| ==> orders[i].status == old(orders[i].status)
      ensures forall i :: 0 <= i < |orders| && (orders[i].orderId != id || MakeKey(name, category) !in ItemKeys(menu.items)) ==>
                orders[i].Lines() == old(orders[i].Lines())
      ensures forall i :: 0 <= i < |orders| && orders[i].orderId != id ==> orders[i].items == old(orders[i].items)
    {
      match RequireOrder(id)
      case Err(e) =>
        return Fail(e);
      case Ok(o) =>
        match GetMenuItemOrFail(name, category)
        case Err(missing) =>
          return Fail(missing);
        case Ok(m) =>
          ghost var k := OrderIndex(orders, id).value;
          r := o.AddItem(m, quantity);
          o.ItemsGrown();
          assert orders[k] == o;
          LinesChanged(k);
          assert GetMenuItemOrFail(name, category) == Ok(m);
    }

    /** `change_order_item_quantity`: the same two lookups, then the order's own
        `change_item_quantity`. The lines of every other order, every status
        and the menu stay as they were. */
    method ChangeOrderItemQuantity(id: int, name: string, category: Category, newQuantity: int) returns (r: Outcome)
      requires Valid()
      modifies orders, LineObjects(orders)
      ensures Valid() && unchanged(menu)
      ensures id !in OrderIds(orders) ==> r == Fail(MenuValidationError)
      ensures id in OrderIds(orders) && MakeKey(name, category) !in ItemKeys(menu.items) ==>
                r == Fail(MenuItemNotFoundError)
      ensures id in OrderIds(orders) && MakeKey(name, category) in ItemKeys(menu.items) ==>
                var o := GetOrder(id).value;
                Step(r, o.Lines()) == ChangeQuantityStep(old(o.Lines()), GetMenuItemOrFail(name, category).value, newQuantity)
      ensures forall i :: 0 <= i < |orders| ==> orders[i].status == old(orders[i].status)
      ensures forall i :: 0 <= i < |orders| && (orders[i].orderId != id || MakeKey(name, category) !in ItemKeys(menu.items)) ==>
                orders[i].Lines() == old(orders[i].Lines())
      ensures forall i :: 0 <= i < |orders| && orders[i].orderId != id ==> orders[i].items == old(orders[i].items)
    {
      match RequireOrder(id)
      case Err(e) =>
        return Fail(e);
      case Ok(o) =>
        match GetMenuItemOrFail(name, category)
        case Err(missing) =>
          return Fail(missing);
        case Ok(m) =>
          ghost var k := OrderIndex(orders, id).value;
          r := o.ChangeItemQuantity(m, newQuantity);
          assert orders[k] == o;
          LinesChanged(k);
          assert GetMenuItemOrFail(name, category) == Ok(m);
    }

    /** `remove_item_from_order`: the same two lookups, then the order's own
        `remove_item`. The lines of every other order, every status and the
        menu stay as they were. */
    method RemoveItemFromOrder(id: int, name: string, category: Category) returns (r: Outcome)
      requires Valid()
      modifies orders, LineObjects(orders)
      ensures Valid() && unchanged(menu)
      ensures id !in OrderIds(orders) ==> r == Fail(MenuValidationError)
      ensures id in OrderIds(orders) && MakeKey(name, category) !in ItemKeys(menu.items) ==>
                r == Fail(MenuItemNotFoundError)
      ensures id in OrderIds(orders) && MakeKey(name, category) in ItemKeys(menu.items) ==>
                var o := GetOrder(id).value;
                Step(r, o.Lines()) == RemoveItemStep(old(o.Lines()), GetMenuItemOrFail(name, category).value)
      ensures forall i :: 0 <= i < |orders| ==> orders[i].status == old(orders[i].status)
      ensures forall i :: 0 <= i < |orders| && (orders[i].orderId != id || MakeKey(name, category) !in ItemKeys(menu.items)) ==>
                orders[i].Lines() == old(orders[i].Lines())
      ensures forall i :: 0 <= i < |orders| && orders[i].orderId != id ==> orders[i].items == old(orders[i].items)
    {
      match RequireOrder(id)
      case Err(e) =>
        return Fail(e);
      case Ok(o) =>
        match GetMenuItemOrFail(name, category)
        case Err(missing) =>
          return Fail(missing);
        case Ok(m) =>
          ghost var k := OrderIndex(orders, id).value;
          r := o.RemoveItem(m);
          assert orders[k] == o;
          LinesChanged(k);
          assert GetMenuItemOrFail(name, category) == Ok(m);
    }

    /** `set_order_status`: an unknown id is a validation error; otherwise that
        order takes the new status, with no transition check. No other status
        and no lines change. */
    method SetOrderStatus(id: int, newStatus: OrderStatus) returns (r: Outcome)
      requires Valid()
      modifies orders
      ensures Valid() && unchanged(menu)
      ensures r == if id in OrderIds(orders) then Pass else Fail(MenuValidationError)
      ensures forall i :: 0 <= i < |orders| ==>
                orders[i].status == (if orders[i].orderId == id then newStatus else old(orders[i].status))
      ensures forall i :: 0 <= i < |orders| ==> orders[i].Lines() == old(orders[i].Lines())
      ensures forall i :: 0 <= i < |orders| ==> orders[i].items == old(orders[i].items)
    {
      match RequireOrder(id)
      case Err(e) =>
        return Fail(e);
      case Ok(o) =>
        ghost var k := OrderIndex(orders, id).value;
        o.SetStatus(newStatus);
        assert orders[k] == o;
        OrderChanged(k);
        r := Pass;
    }

    /** Registers an order under its id, replacing any order there, and sets
        the counter to `next`. The order shares no line object with the
        registered ones. The lookup of every other id is unchanged. */
    method Register(o: Order, next: int)
      requires Valid() && o.Valid() && o !in orders && next >= 1
      requires forall a :: 0 <= a < |o.items| ==> o.items[a] !in LineObjects(orders)
      modifies this`orders, this`nextOrderId
      ensures Valid()
      ensures orders == Put(old(orders), o) && nextOrderId == next
      ensures GetOrder(o.orderId) == Some(o)
      ensures forall id :: id != o.orderId ==> GetOrder(id) == old(GetOrder(id))
      ensures o.status == old(o.status) && o.Lines() == old(o.Lines())
    {
      RegisterConsistent(menu, orders, o);
      forall id | id != o.orderId ensures OrderIndex(Put(orders, o), id) == OrderIndex(orders, id) {
        PutElsewhere(orders, o, id);
      }
      orders, nextOrderId := Put(orders, o), next;
    }

    /** `create_order`: a Pending order with no lines under the counter's
        value, which then grows by one. While every id is below the counter
        the new order is appended and the counter stays ahead. */
    method CreateOrder() returns (o: Order)
      requires Valid()
      modifies this`orders, this`nextOrderId
      ensures Valid()
      ensures fresh(o) && o.orderId == old(nextOrderId) && o.status == Pending && o.items == []
      ensures nextOrderId == old(nextOrderId) + 1
      ensures orders == Put(old(orders), o)
      ensures GetOrder(o.orderId) == Some(o)
      ensures old(CounterAhead()) ==> CounterAhead() && orders == old(orders) + [o]
    {
      o := new Order(nextOrderId, Pending);
      if CounterAhead() {
        PutAhead(orders, o, nextOrderId);
      }
      Register(o, nextOrderId + 1);
    }

    /** The item a record refers to: `get_item` on its name and category, or
        else a new item built from the record and added to the menu. Either
        way it is then the item found under the record's key. */
    method ResolveItem(rec: ItemRecord) returns (m: MenuItem)
      requires menu.Valid()
      modifies menu`items
      ensures menu.Valid()
      ensures GetMenuItemOrFail(rec.name, rec.category) == Ok(m)
      ensures RecordKey(rec) in ItemKeys(menu.items)
      ensures |old(menu.items)| <= |menu.items| && menu.items[..|old(menu.items)|] == old(menu.items)
      ensures old(GetMenuItemOrFail(rec.name, rec.category)).Ok? ==>
                m == old(GetMenuItemOrFail(rec.name, rec.category)).value && menu.items == old(menu.items)
      ensures old(GetMenuItemOrFail(rec.name, rec.category)).Err? ==>
                fresh(m) && menu.items == old(menu.items) + [m] &&
                m.name == rec.name && m.price == rec.price && m.category == rec.category &&
                m.description == rec.description && m.available == rec.available
      ensures MenuBuilt(old(menu.items), menu.items, NewRecords(KeySet(ItemKeys(old(menu.items))), [rec]))
      ensures forall p :: |old(menu.items)| <= p < |menu.items| ==> fresh(menu.items[p])
    {
      NewRecordsSingle(KeySet(ItemKeys(menu.items)), rec);
      match menu.GetItem(rec.name, rec.category)
      case Some(found) =>
        m := found;
        assert menu.items[..|menu.items|] == menu.items;
      case None =>
        m := new MenuItem(rec.name, rec.price, rec.category, rec.description, rec.available);
        var added := menu.AddItem(m);
        assert GetMenuItemOrFail(rec.name, rec.category) == Ok(m);
        assert menu.items[|old(menu.items)|] == m;
    }

    /** Line record `i` added to the new order `o`, whose lines so far hold
        what the records before it ask for: its item is resolved, then the
        order's own `add_item` adds the line's quantity under the item's key,
        or refuses a quantity below 1. The menu gains a new item exactly when
        the line's item is not on it, and the order's line objects are the
        old ones, possibly followed by one new one. */
    method AddLoadedLine(o: Order, lines: seq<LineRecord>, i: nat) returns (r: Outcome)
      requires i < |lines| && menu.Valid() && o.Valid()
      requires HoldsLines(o.Lines(), lines[..i])
      requires forall a :: 0 <= a < |o.items| ==> o.items[a].item in menu.items
      modifies menu`items, o`items, o.items
      ensures menu.Valid() && o.Valid()
      ensures r == if lines[i].quantity >= 1 then Pass else Fail(MenuValidationError)
      ensures r.Pass? ==> HoldsLines(o.Lines(), lines[..i + 1])
      ensures forall a :: 0 <= a < |o.items| ==> o.items[a].item in menu.items
      ensures |old(o.items)| <= |o.items| && o.items[..|old(o.items)|] == old(o.items)
      ensures forall a :: |old(o.items)| <= a < |o.items| ==> fresh(o.items[a])
      ensures MenuBuilt(old(menu.items), menu.items, NewRecords(KeySet(ItemKeys(old(menu.items))), [lines[i].item]))
      ensures forall p :: |old(menu.items)| <= p < |menu.items| ==> fresh(menu.items[p])
    {
      ghost var menuBefore := menu.items;
      var m := ResolveItem(lines[i].item);
      ghost var before := o.Lines();
      r := o.AddItem(m, lines[i].quantity);
      LoadStep(before, o.Lines(), lines, i, m, r);
      AddItemStepItems(before, m, lines[i].quantity);
      forall a | 0 <= a < |o.items| ensures o.items[a].item in menu.items {
        assert o.items[a].item == o.Lines()[a].item;
        if a < |before| {
          StillOnMenu(before[a].item, menuBefore, menu.items);
        }
      }
    }

    /** The lines of one order record, added in turn to the new order `o`
        (registered by the caller afterwards), stopping at the first line of
        fewer than one unit. The order then holds, key by key, what the lines
        ask for; the menu only grows. */
    method LoadLines(o: Order, lines: seq<LineRecord>) returns (r: Outcome)
      requires menu.Valid() && o.Valid() && o.items == []
      modifies menu`items, o`items
      ensures menu.Valid() && o.Valid()
      ensures r == if LinesLoadable(lines) then Pass else Fail(MenuValidationError)
      ensures r.Pass? ==> HoldsLines(o.Lines(), lines)
      ensures r.Pass? ==> forall i :: 0 <= i < |lines| ==> RecordKey(lines[i].item) in ItemKeys(menu.items)
      ensures |old(menu.items)| <= |menu.items| && menu.items[..|old(menu.items)|] == old(menu.items)
      ensures forall a :: 0 <= a < |o.items| ==> fresh(o.items[a])
      ensures forall a :: 0 <= a < |o.items| ==> o.items[a].item in menu.items
      ensures r.Pass? ==>
                MenuBuilt(old(menu.items), menu.items, NewRecords(KeySet(ItemKeys(old(menu.items))), LineRecordItems(lines)))
      ensures forall p :: |old(menu.items)| <= p < |menu.items| ==> fresh(menu.items[p])
    {
      var i := 0;
      while i < |lines|
        invariant 0 <= i <= |lines|
        invariant menu.Valid() && o.Valid()
        invariant LinesLoadable(lines[..i])
        invariant HoldsLines(o.Lines(), lines[..i])
        invariant forall a :: 0 <= a < |o.items| ==> fresh(o.items[a])
        invariant forall a :: 0 <= a < |o.items| ==> o.items[a].item in menu.items
        invariant MenuBuilt(old(menu.items), menu.items,
                            NewRecords(KeySet(ItemKeys(old(menu.items))), LineRecordItems(lines[..i])))
        invariant forall p :: |old(menu.items)| <= p < |menu.items| ==> fresh(menu.items[p])
      {
        ghost var itemsBefore, menuBefore := o.items, menu.items;
        r := AddLoadedLine(o, lines, i);
        forall a | 0 <= a < |o.items| ensures fresh(o.items[a]) {
          if a < |itemsBefore| {
            assert o.items[a] == itemsBefore[a];
          }
        }
        forall p | |old(menu.items)| <= p < |menu.items| ensures fresh(menu.items[p]) {
          if p < |menuBefore| {
            assert menu.items[p] == menuBefore[p];
          }
        }
        if r.Fail? {
          assert menu.items[..|old(menu.items)|] == menuBefore[..|old(menu.items)|];
          return;
        }
        assert lines[..i + 1] == lines[..i] + [lines[i]];
        GrowStep(old(menu.items), menuBefore, menu.items, LineRecordItems(lines[..i]), [lines[i].item]);
        assert LineRecordItems(lines[..i + 1]) == LineRecordItems(lines[..i]) + [lines[i].item];
        i := i + 1;
      }
      assert lines[..i] == lines;
      LinesOnBuiltMenu(old(menu.items), menu.items, lines);
      r := Pass;
    }

    /** One order record: an id below 1 is refused before anything changes;
        otherwise a new order takes the record's lines and is registered
        under the id, replacing any order there, even when a line is refused
        part way. No other order is touched, and the menu only grows. */
    method LoadOrder(rec: OrderRecord) returns (r: Outcome)
      requires Valid()
      modifies this`orders, this`nextOrderId, menu`items
      ensures Valid() && nextOrderId == old(nextOrderId)
      ensures r == if rec.orderId >= 1 && LinesLoadable(rec.lines) then Pass else Fail(MenuValidationError)
      ensures rec.orderId < 1 ==> orders == old(orders) && menu.items == old(menu.items)
      ensures rec.orderId >= 1 ==>
                GetOrder(rec.orderId).Some? && fresh(GetOrder(rec.orderId).value) &&
                orders == Put(old(orders), GetOrder(rec.orderId).value)
      ensures r.Pass? ==> LoadedFrom(GetOrder(rec.orderId).value, rec)
      ensures forall id :: id != rec.orderId ==> GetOrder(id) == old(GetOrder(id))
      ensures rec.orderId >= 1 ==> OrderOnMenu(rec.orderId)
      ensures forall id :: id != rec.orderId && old(OrderOnMenu(id)) ==> OrderOnMenu(id)
      ensures |old(menu.items)| <= |menu.items| && menu.items[..|old(menu.items)|] == old(menu.items)
      ensures r.Pass? ==>
                MenuBuilt(old(menu.items), menu.items, NewRecords(KeySet(ItemKeys(old(menu.items))), LineRecordItems(rec.lines)))
      ensures forall p :: |old(menu.items)| <= p < |menu.items| ==> fresh(menu.items[p])
    {
      var created := Order.Create(rec.orderId, rec.status);
      if created.Err? {
        return Fail(created.error);
      }
      var o := created.value;
      r := LoadLines(o, rec.lines);
      RegisterLoaded(o, rec, r);
      OthersStayOnMenu(rec.orderId);
    }

    /** The new order `o`, holding the lines of `rec` as loaded, registered
        under its id: it replaces any order there, every other id keeps its
        order, and its lines still refer to the menu's own items. */
    method RegisterLoaded(o: Order, ghost rec: OrderRecord, ghost r: Outcome)
      requires Valid() && o.Valid() && o !in orders && o.orderId == rec.orderId
      requires forall a :: 0 <= a < |o.items| ==> o.items[a] !in LineObjects(orders)
      requires forall a :: 0 <= a < |o.items| ==> o.items[a].item in menu.items
      requires r.Pass? ==> LoadedFrom(o, rec)
      modifies this`orders, this`nextOrderId
      ensures Valid() && nextOrderId == old(nextOrderId)
      ensures orders == Put(old(orders), o) && GetOrder(rec.orderId) == Some(o)
      ensures r.Pass? ==> LoadedFrom(o, rec)
      ensures forall id :: id != rec.orderId ==> GetOrder(id) == old(GetOrder(id))
      ensures OrderOnMenu(rec.orderId)
    {
      Register(o, nextOrderId);
    }

    /** The menu part of `load_data`: each item record is resolved against the
        menu in turn. The menu is then the old menu followed by one new item,
        with the record's fields, for the first record with each key not
        already there; a record whose key is taken is skipped. Every
        record's key is then on the menu. */
    method LoadMenu(menuRecords: seq<ItemRecord>)
      requires menu.Valid()
      modifies menu`items
      ensures menu.Valid()
      ensures MenuBuilt(old(menu.items), menu.items, NewRecords(KeySet(ItemKeys(old(menu.items))), menuRecords))
      ensures forall p :: |old(menu.items)| <= p < |menu.items| ==> fresh(menu.items[p])
      ensures forall i :: 0 <= i < |menuRecords| ==> RecordKey(menuRecords[i]) in ItemKeys(menu.items)
    {
      var i := 0;
      while i < |menuRecords|
        invariant 0 <= i <= |menuRecords|
        invariant menu.Valid()
        invariant MenuBuilt(old(menu.items), menu.items, NewRecords(KeySet(ItemKeys(old(menu.items))), menuRecords[..i]))
        invariant forall p :: |old(menu.items)| <= p < |menu.items| ==> fresh(menu.items[p])
      {
        ghost var menuBefore := menu.items;
        var m := ResolveItem(menuRecords[i]);
        GrowStep(old(menu.items), menuBefore, menu.items, menuRecords[..i], [menuRecords[i]]);
        assert menuRecords[..i + 1] == menuRecords[..i] + [menuRecords[i]];
        forall p | |old(menu.items)| <= p < |menu.items| ensures fresh(menu.items[p]) {
          if p < |menuBefore| {
            assert menu.items[p] == menuBefore[p];
          }
        }
        i := i + 1;
      }
      assert menuRecords[..i] == menuRecords == menuRecords + ReferencedItems([]);
      LoadKeysOnMenu(old(menu.items), menu.items, menuRecords, []);
    }

    /** Order record `j` loaded after the records before it: when the last
        record with each id among the first `j` is what its order holds, the
        same is true of the first `j + 1` once record `j` is loaded. The
        registered ids keep their places, the record's id going at the end
        when it is new; every other id keeps its order, and the menu gains a
        new item for the first line record with each key not already there. */
    method LoadRecordAt(recs: seq<OrderRecord>, j: nat) returns (r: Outcome)
      requires Valid() && j < |recs|
      requires forall k :: LastWithId(recs[..j], k) ==>
                 GetOrder(recs[k].orderId).Some? && LoadedFrom(GetOrder(recs[k].orderId).value, recs[k])
      modifies this`orders, this`nextOrderId, menu`items
      ensures Valid() && nextOrderId == old(nextOrderId)
      ensures r == if recs[j].orderId >= 1 && LinesLoadable(recs[j].lines) then Pass else Fail(MenuValidationError)
      ensures r.Pass? ==> forall k :: LastWithId(recs[..j + 1], k) ==>
                GetOrder(recs[k].orderId).Some? && LoadedFrom(GetOrder(recs[k].orderId).value, recs[k])
      ensures forall id :: id != recs[j].orderId ==> GetOrder(id) == old(GetOrder(id))
      ensures recs[j].orderId >= 1 ==> OrderIds(orders) == IdsAfter(OrderIds(old(orders)), [recs[j]])
      ensures recs[j].orderId >= 1 ==> OrderOnMenu(recs[j].orderId)
      ensures forall id :: id != recs[j].orderId && old(OrderOnMenu(id)) ==> OrderOnMenu(id)
      ensures |old(menu.items)| <= |menu.items| && menu.items[..|old(menu.items)|] == old(menu.items)
      ensures r.Pass? ==>
                MenuBuilt(old(menu.items), menu.items, NewRecords(KeySet(ItemKeys(old(menu.items))), LineRecordItems(recs[j].lines)))
      ensures forall p :: |old(menu.items)| <= p < |menu.items| ==> fresh(menu.items[p])
    {
      r := LoadOrder(recs[j]);
      assert [recs[j]][..0] == [];
      if r.Pass? {
        forall k | LastWithId(recs[..j + 1], k)
          ensures GetOrder(recs[k].orderId).Some? && LoadedFrom(GetOrder(recs[k].orderId).value, recs[k])
        {
          if k != j {
            LastWithIdPrefix(recs, j, k);
            var o := GetOrder(recs[k].orderId).value;
            assert old(GetOrder(recs[k].orderId)) == Some(o) && old(LoadedFrom(o, recs[k]));
          }
        }
      }
    }

    /** Sets the counter that issues new ids; nothing else changes. */
    method SetCounter(next: int)
      requires Valid() && next >= 1
      modifies this`nextOrderId
      ensures Valid() && nextOrderId == next
    {
      nextOrderId := next;
    }

    /** The orders part of `load_data`: the order records are loaded in file
        order, stopping at the first refused one, which leaves the counter
        alone. When all are loaded, the registered ids are the old ones
        followed by each new id in the order it first appears, the last
        record with each id is what the order registered under it holds, `maxId` is the largest id read, or 0
        when none was read, and the menu is the old menu followed by one new
        item for the first line record with each key not already there, so
        every line of those orders refers to one of the menu's own items. Ids no
        record carries keep their orders. */
    method LoadOrders(orderRecords: seq<OrderRecord>, ghost menu0: seq<MenuItem>) returns (r: Outcome, maxId: int)
      requires Valid()
      requires |menu0| <= |menu.items| && menu.items[..|menu0|] == menu0
      modifies this`orders, this`nextOrderId, menu`items
      ensures Valid() && nextOrderId == old(nextOrderId)
      ensures r == if OrdersLoadable(orderRecords) then Pass else Fail(MenuValidationError)
      ensures r.Pass? ==> maxId == MaxId(orderRecords)
      ensures r.Pass? ==> HoldsRecords(orderRecords)
      ensures r.Pass? ==> OrderIds(orders) == IdsAfter(OrderIds(old(orders)), orderRecords)
      ensures forall id :: id !in RecordIds(orderRecords) ==> GetOrder(id) == old(GetOrder(id))
      ensures |menu0| <= |menu.items| && menu.items[..|menu0|] == menu0
      ensures r.Pass? ==> MenuBuilt(old(menu.items), menu.items,
                                    NewRecords(KeySet(ItemKeys(old(menu.items))), ReferencedItems(orderRecords)))
      ensures forall p :: |old(menu.items)| <= p < |menu.items| ==> fresh(menu.items[p])
      ensures r.Pass? ==> OrdersOnMenu(RecordIds(orderRecords))
    {
      maxId := 0;
      var j := 0;
      while j < |orderRecords|
        invariant 0 <= j <= |orderRecords|
        invariant Valid() && nextOrderId == old(nextOrderId)
        invariant maxId == MaxId(orderRecords[..j])
        invariant OrdersLoadable(orderRecords[..j])
        invariant |menu0| <= |menu.items| && menu.items[..|menu0|] == menu0
        invariant forall k :: LastWithId(orderRecords[..j], k) ==>
                    GetOrder(orderRecords[k].orderId).Some? &&
                    LoadedFrom(GetOrder(orderRecords[k].orderId).value, orderRecords[k])
        invariant forall id :: id !in RecordIds(orderRecords[..j]) ==> GetOrder(id) == old(GetOrder(id))
        invariant OrderIds(orders) == IdsAfter(OrderIds(old(orders)), orderRecords[..j])
        invariant OrdersOnMenu(RecordIds(orderRecords[..j]))
        invariant MenuBuilt(old(menu.items), menu.items,
                            NewRecords(KeySet(ItemKeys(old(menu.items))), ReferencedItems(orderRecords[..j])))
        invariant forall p :: |old(menu.items)| <= p < |menu.items| ==> fresh(menu.items[p])
      {
        ghost var menuBefore := menu.items;
        r := LoadRecordAt(orderRecords, j);
        assert menu.items[..|menu0|] == menuBefore[..|menu0|];
        forall p | |old(menu.items)| <= p < |menu.items| ensures fresh(menu.items[p]) {
          if p < |menuBefore| {
            assert menu.items[p] == menuBefore[p];
          }
        }
        if r.Fail? {
          RecordIdsPrefix(orderRecords, j);
          return;
        }
        OrdersMenuStep(old(menu.items), menuBefore, menu.items, orderRecords, j);
        maxId := if orderRecords[j].orderId > maxId then orderRecords[j].orderId else maxId;
        assert orderRecords[..j + 1][..j] == orderRecords[..j];
        LoadablePrefix(orderRecords, j);
        assert RecordIds(orderRecords[..j + 1]) == RecordIds(orderRecords[..j]) + {orderRecords[j].orderId};
        assert OrdersOnMenu(RecordIds(orderRecords[..j + 1]));
        j := j + 1;
      }
      assert orderRecords[..j] == orderRecords && [] + ReferencedItems(orderRecords) == ReferencedItems(orderRecords);
      LoadKeysOnMenu(old(menu.items), menu.items, [], orderRecords);
      r := Pass;
    }

    /** `load_data` on decoded records, up to its counter: every item record
        is resolved against the menu, then every order record is loaded in
        file order, stopping at the first refused one, which leaves the
        counter alone. The menu is then the old menu followed by one new item
        for the first record, item or line, with each key not already there,
        so every item record's key is on it. When all order records are
        loaded, the registered ids are the old ones followed by each new id
        in the order it first appears, the last record with each id is the
        order registered under it, every line of those orders refers to one of the menu's own items, and the
        counter is one past the largest id read, or 1 when none was read. Ids
        no record carries keep their orders. */
    method LoadRecords(menuRecords: seq<ItemRecord>, orderRecords: seq<OrderRecord>) returns (r: Outcome)
      requires Valid()
      modifies this`orders, this`nextOrderId, menu`items
      ensures Valid()
      ensures r == if OrdersLoadable(orderRecords) then Pass else Fail(MenuValidationError)
      ensures |old(menu.items)| <= |menu.items| && menu.items[..|old(menu.items)|] == old(menu.items)
      ensures forall i :: 0 <= i < |menuRecords| ==> RecordKey(menuRecords[i]) in ItemKeys(menu.items)
      ensures r.Pass? ==> HoldsRecords(orderRecords)
      ensures r.Pass? ==> OrderIds(orders) == IdsAfter(OrderIds(old(orders)), orderRecords)
      ensures forall id :: id !in RecordIds(orderRecords) ==> GetOrder(id) == old(GetOrder(id))
      ensures r.Pass? ==> nextOrderId == NextId(orderRecords)
      ensures r.Fail? ==> nextOrderId == old(nextOrderId)
      ensures r.Pass? ==> MenuBuilt(old(menu.items), menu.items,
                                    NewRecords(KeySet(ItemKeys(old(menu.items))), menuRecords + ReferencedItems(orderRecords)))
      ensures forall p :: |old(menu.items)| <= p < |menu.items| ==> fresh(menu.items[p])
      ensures r.Pass? ==> forall j, i :: 0 <= j < |orderRecords| && 0 <= i < |orderRecords[j].lines| ==>
                RecordKey(orderRecords[j].lines[i].item) in ItemKeys(menu.items)
      ensures r.Pass? ==> OrdersOnMenu(RecordIds(orderRecords))
    {
      LoadMenu(menuRecords);
      ghost var menu1 := menu.items;
      var maxId;
      r, maxId := LoadOrders(orderRecords, menu1);
      KeysGrow(menu1, menu.items);
      assert menu.items[..|old(menu.items)|] == menu1[..|old(menu.items)|];
      forall p | |old(menu.items)| <= p < |menu.items| ensures fresh(menu.items[p]) {
        if p < |menu1| {
          assert menu.items[p] == menu1[p];
        }
      }
      if r.Fail? {
        return;
      }
      GrowStep(old(menu.items), menu1, menu.items, menuRecords, ReferencedItems(orderRecords));
      LoadKeysOnMenu(old(menu.items), menu.items, menuRecords, orderRecords);
      SetCounter(if maxId > 0 then maxId + 1 else 1);
    }

    /** `load_data` on decoded records, as `LoadRecords` states; loaded into
        an empty registry, every registered id is then below the counter, so
        the next order created gets a new id. */
    method LoadData(menuRecords: seq<ItemRecord>, orderRecords: seq<OrderRecord>) returns (r: Outcome)
      requires Valid()
      modifies this`orders, this`nextOrderId, menu`items
      ensures Valid()
      ensures r == if OrdersLoadable(orderRecords) then Pass else Fail(MenuValidationError)
      ensures |old(menu.items)| <= |menu.items| && menu.items[..|old(menu.items)|] == old(menu.items)
      ensures forall i :: 0 <= i < |menuRecords| ==> RecordKey(menuRecords[i]) in ItemKeys(menu.items)
      ensures r.Pass? ==> HoldsRecords(orderRecords)
      ensures r.Pass? ==> OrderIds(orders) == IdsAfter(OrderIds(old(orders)), orderRecords)
      ensures forall id :: id !in RecordIds(orderRecords) ==> GetOrder(id) == old(GetOrder(id))
      ensures r.Pass? ==> nextOrderId == NextId(orderRecords)
      ensures r.Fail? ==> nextOrderId == old(nextOrderId)
      ensures r.Pass? && old(orders) == [] ==> CounterAhead()
      ensures r.Pass? ==> MenuBuilt(old(menu.items), menu.items,
                                    NewRecords(KeySet(ItemKeys(old(menu.items))), menuRecords + ReferencedItems(orderRecords)))
      ensures forall p :: |old(menu.items)| <= p < |menu.items| ==> fresh(menu.items[p])
      ensures r.Pass? ==> forall j, i :: 0 <= j < |orderRecords| && 0 <= i < |orderRecords[j].lines| ==>
                RecordKey(orderRecords[j].lines[i].item) in ItemKeys(menu.items)
      ensures r.Pass? ==> OrdersOnMenu(RecordIds(orderRecords))
    {
      r := LoadRecords(menuRecords, orderRecords);
      if r.Pass? && old(orders) == [] {
        forall id | id !in RecordIds(orderRecords) ensures id !in OrderIds(orders) {
          assert old(GetOrder(id)) == None;
        }
        NextIdAbove(orderRecords);
        IdsBelow(orders, RecordIds(orderRecords), nextOrderId);
      }
    }
  }
}
