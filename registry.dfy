/** The order registry as values: the `order_id -> Order` dictionary as a
    sequence of orders with distinct ids in registration order, lookup and
    insertion on it, the footprint invariant of the orders and their line
    objects, and revenue. */
module Registries {
  import opened Errors
  import opened Enums
  import opened Keys
  import opened MenuItems
  import opened OrderItems
  import opened Orders
  import opened Menus

  /** The ids of the orders, in registration order. */
  function OrderIds(os: seq<Order>): (ids: seq<int>)
    ensures |ids| == |os| && forall i :: 0 <= i < |os| ==> ids[i] == os[i].orderId
  {
    seq(|os|, i requires 0 <= i < |os| => os[i].orderId)
  }

  /** No id is registered twice. */
  predicate DistinctIds(os: seq<Order>)
  {
    forall i, j :: 0 <= i < j < |os| ==> os[i].orderId != os[j].orderId
  }

  /** The position of the order registered under `id`. */
  function OrderIndex(os: seq<Order>, id: int): (r: Option<nat>)
    ensures r.Some? ==> r.value < |os| && os[r.value].orderId == id
    ensures r.Some? ==> forall j :: 0 <= j < r.value ==> os[j].orderId != id
    ensures r.None? <==> id !in OrderIds(os)
  {
    if os == [] then None
    else if os[0].orderId == id then Some(0)
    else match OrderIndex(os[1..], id)
      case None => None
      case Some(i) => Some(i + 1)
  }

  /** With distinct ids, the lookup of an order's id finds that order's position. */
  lemma OrderIndexDistinct(os: seq<Order>, i: nat)
    requires DistinctIds(os) && i < |os|
    ensures OrderIndex(os, os[i].orderId) == Some(i)
  {
  }

  /** With distinct ids, looking up each order's id finds that order's position. */
  lemma LookupEach(os: seq<Order>)
    requires DistinctIds(os)
    ensures forall i :: 0 <= i < |os| ==> OrderIndex(os, os[i].orderId) == Some(i)
  {
    forall i | 0 <= i < |os| {
      OrderIndexDistinct(os, i);
    }
  }

  /** `_orders[o.order_id] = o`: a registered id keeps its position and now
      holds `o`; a new id is appended. */
  function Put(os: seq<Order>, o: Order): (r: seq<Order>)
    ensures o.orderId in OrderIds(os) ==> |r| == |os|
    ensures o.orderId !in OrderIds(os) ==> r == os + [o]
    ensures OrderIds(r) == if o.orderId in OrderIds(os) then OrderIds(os) else OrderIds(os) + [o.orderId]
    ensures forall j :: 0 <= j < |os| && os[j].orderId != o.orderId ==> r[j] == os[j]
  {
    match OrderIndex(os, o.orderId)
    case Some(i) => os[i := o]
    case None => os + [o]
  }

  /** The lookup finds the first position holding `id`. */
  lemma {:induction false} OrderIndexFirst(os: seq<Order>, id: int, i: nat)
    requires i < |os| && os[i].orderId == id
    requires forall j :: 0 <= j < i ==> os[j].orderId != id
    ensures OrderIndex(os, id) == Some(i)
    decreases i
  {
    if i > 0 {
      OrderIndexFirst(os[1..], id, i - 1);
    }
  }

  /** When every registered id is one of `ids` and every one of `ids` is
      below `next`, every registered id is below `next`. */
  lemma IdsBelow(os: seq<Order>, ids: set<int>, next: int)
    requires forall id :: id !in ids ==> id !in OrderIds(os)
    requires forall id :: id in ids ==> id < next
    ensures forall p :: 0 <= p < |os| ==> os[p].orderId < next
  {
    forall p | 0 <= p < |os| ensures os[p].orderId < next {
      assert OrderIds(os)[p] == os[p].orderId && os[p].orderId in OrderIds(os);
    }
  }

  /** When every registered id is below `next` and `o` is registered under
      `next`, it is appended, and every id is then below `next + 1`. */
  lemma PutAhead(os: seq<Order>, o: Order, next: int)
    requires forall i :: 0 <= i < |os| ==> os[i].orderId < next
    requires o.orderId == next
    ensures Put(os, o) == os + [o]
    ensures forall i :: 0 <= i < |Put(os, o)| ==> Put(os, o)[i].orderId < next + 1
  {
    assert o.orderId !in OrderIds(os);
  }

  /** Registering `o` leaves the position found under every other id as it was. */
  lemma PutElsewhere(os: seq<Order>, o: Order, id: int)
    requires id != o.orderId
    ensures OrderIndex(Put(os, o), id) == OrderIndex(os, id)
  {
    var r := Put(os, o);
    match OrderIndex(os, id)
    case Some(i) =>
      OrderIndexFirst(r, id, i);
    case None =>
      assert id !in OrderIds(r);
  }

  /** Each registered position holds either the new order or the order that was there. */
  lemma PutPositions(os: seq<Order>, o: Order)
    ensures forall j :: 0 <= j < |Put(os, o)| ==> Put(os, o)[j] == o || (j < |os| && Put(os, o)[j] == os[j])
  {
  }

  /** Registering keeps ids distinct and makes `o` the order found under its id. */
  lemma PutFinds(os: seq<Order>, o: Order)
    requires DistinctIds(os)
    ensures DistinctIds(Put(os, o))
    ensures OrderIndex(Put(os, o), o.orderId).Some?
    ensures Put(os, o)[OrderIndex(Put(os, o), o.orderId).value] == o
  {
    var r := Put(os, o);
    match OrderIndex(os, o.orderId)
    case Some(i) =>
      assert r[i] == o;
      OrderIndexDistinct(r, i);
    case None =>
      assert r[|os|] == o;
      OrderIndexDistinct(r, |os|);
  }

  /** The registered orders whose status is `s`, in registration order. */
  function WithStatus(os: seq<Order>, s: OrderStatus): (r: seq<Order>)
    reads os
    ensures forall i :: 0 <= i < |r| ==> r[i] in os && r[i].status == s
    ensures forall i :: 0 <= i < |os| && os[i].status == s ==> os[i] in r
  {
    if os == [] then []
    else (if os[0].status == s then [os[0]] else []) + WithStatus(os[1..], s)
  }

  /** The line objects of all the orders. */
  ghost function LineObjects(os: seq<Order>): set<OrderItem>
    reads os
  {
    set i, a | 0 <= i < |os| && 0 <= a < |os[i].items| :: os[i].items[a]
  }

  /** The menu items the lines of the orders refer to. */
  ghost function LineItems(os: seq<Order>): set<MenuItem>
    reads os
  {
    set i, a | 0 <= i < |os| && 0 <= a < |os[i].items| :: os[i].items[a].item
  }

  /** No line object is shared by two orders. */
  predicate Separate(os: seq<Order>)
    reads os
  {
    forall i, j, a, b ::
      (0 <= i < |os| && 0 <= j < |os| && i != j && 0 <= a < |os[i].items| && 0 <= b < |os[j].items|)
      ==> os[i].items[a] != os[j].items[b]
  }

  /** Every order keeps its own invariant and no line object is shared by two orders. */
  predicate SoundOrders(os: seq<Order>)
    reads os, LineObjects(os)
  {
    (forall i :: 0 <= i < |os| ==> os[i].Valid()) && Separate(os)
  }

  /** The registry invariant: the menu is valid, ids are distinct, every
      order is valid and no line object is shared between orders. */
  ghost predicate Consistent(menu: Menu, os: seq<Order>)
    reads menu, os, LineObjects(os)
  {
    menu.Valid() && DistinctIds(os) && SoundOrders(os)
  }

  /** Registering an order whose line objects belong to no registered order
      keeps the registry consistent and makes the order the one found under
      its id. */
  lemma RegisterConsistent(menu: Menu, os: seq<Order>, o: Order)
    requires Consistent(menu, os) && o.Valid() && o !in os
    requires forall a :: 0 <= a < |o.items| ==> o.items[a] !in LineObjects(os)
    ensures Consistent(menu, Put(os, o))
    ensures OrderIndex(Put(os, o), o.orderId).Some?
    ensures Put(os, o)[OrderIndex(Put(os, o), o.orderId).value] == o
  {
    PutFinds(os, o);
    PutPositions(os, o);
    var r := Put(os, o);
    forall i, j, a, b | 0 <= i < |r| && 0 <= j < |r| && i != j && 0 <= a < |r[i].items| && 0 <= b < |r[j].items|
      ensures r[i].items[a] != r[j].items[b]
    {
      if r[i] == o {
        assert r[j] == os[j] && r[j].items[b] in LineObjects(os);
      } else if r[j] == o {
        assert r[i] == os[i] && r[i].items[a] in LineObjects(os);
      } else {
        assert r[i] == os[i] && r[j] == os[j];
      }
    }
  }

  /** The sum of the live totals of the orders. */
  function SumTotals(os: seq<Order>): int
    reads os, LineObjects(os), LineItems(os)
  {
    if os == [] then 0
    else
      assert LineObjects(os[1..]) <= LineObjects(os);
      assert LineItems(os[1..]) <= LineItems(os);
      os[0].Total() + SumTotals(os[1..])
  }

  /** `total_revenue`: the live totals of the Completed orders. It is the sum
      of the totals of the orders listed under that status, so the others
      add nothing. */
  function Revenue(os: seq<Order>): (r: int)
    reads os, LineObjects(os), LineItems(os)
    ensures r == SumTotals(WithStatus(os, Completed))
  {
    if os == [] then 0
    else
      assert LineObjects(os[1..]) <= LineObjects(os);
      assert LineItems(os[1..]) <= LineItems(os);
      var rest := WithStatus(os[1..], Completed);
      assert os[0].status == Completed ==> WithStatus(os, Completed) == [os[0]] + rest && ([os[0]] + rest)[1..] == rest;
      assert os[0].status != Completed ==> WithStatus(os, Completed) == rest;
      (if os[0].status == Completed then os[0].Total() else 0) + Revenue(os[1..])
  }

  /** Selecting by status distributes over concatenation. */
  lemma {:induction false} WithStatusAppend(a: seq<Order>, b: seq<Order>, s: OrderStatus)
    ensures WithStatus(a + b, s) == WithStatus(a, s) + WithStatus(b, s)
  {
    if a == [] {
      assert a + b == b;
    } else {
      assert (a + b)[1..] == a[1..] + b;
      WithStatusAppend(a[1..], b, s);
    }
  }
}
