/** An order: an id, a status and a keyed set of lines in insertion order.
    The lines are `OrderItem` objects; `Line` is their value, and the pure
    functions below say what each operation does to the sequence of values. */
module Orders {
  import opened Errors
  import opened Enums
  import opened Keys
  import opened MenuItems
  import opened OrderItems

  /** The value of one order line: which item object it refers to, and how many. */
  datatype Line = Line(item: MenuItem, quantity: int)

  /** The keys of the lines, in order (`_make_key_from_item` on each). */
  function LineKeys(ls: seq<Line>): (ks: seq<Key>)
    ensures |ks| == |ls| && forall i :: 0 <= i < |ls| ==> ks[i] == ls[i].item.key
  {
    seq(|ls|, i requires 0 <= i < |ls| => ls[i].item.key)
  }

  /** The order invariant: at most one line per key, every quantity at least 1. */
  predicate WellFormed(ls: seq<Line>)
  {
    Distinct(LineKeys(ls)) && forall i :: 0 <= i < |ls| ==> ls[i].quantity >= 1
  }

  /** How many units of the key `k` the lines hold. */
  function QuantityOf(ls: seq<Line>, k: Key): int
  {
    if ls == [] then 0
    else (if ls[0].item.key == k then ls[0].quantity else 0) + QuantityOf(ls[1..], k)
  }

  /** The price of one line at the current price of its item. */
  function LineSubtotal(l: Line): int
    reads l.item
  {
    l.item.price * l.quantity
  }

  /** The sum of the line subtotals at the items' current prices. */
  function TotalOf(ls: seq<Line>): int
    reads set l | l in ls :: l.item
  {
    if ls == [] then 0 else LineSubtotal(ls[0]) + TotalOf(ls[1..])
  }

  lemma {:induction false} QuantityOfAppend(a: seq<Line>, b: seq<Line>, k: Key)
    ensures QuantityOf(a + b, k) == QuantityOf(a, k) + QuantityOf(b, k)
    decreases |a|
  {
    if a == [] {
      assert a + b == b;
    } else {
      assert (a + b)[1..] == a[1..] + b;
      QuantityOfAppend(a[1..], b, k);
    }
  }

  lemma {:induction false} QuantityOfAbsent(ls: seq<Line>, k: Key)
    requires k !in LineKeys(ls)
    ensures QuantityOf(ls, k) == 0
    decreases |ls|
  {
    if ls != [] {
      assert LineKeys(ls)[0] == ls[0].item.key;
      assert LineKeys(ls[1..]) == LineKeys(ls)[1..];
      QuantityOfAbsent(ls[1..], k);
    }
  }

  /** With distinct keys, the quantity held for a line's key is that line's quantity. */
  lemma {:induction false} QuantityOfLine(ls: seq<Line>, i: nat)
    requires Distinct(LineKeys(ls)) && i < |ls|
    ensures QuantityOf(ls, ls[i].item.key) == ls[i].quantity
    decreases i
  {
    var k := ls[i].item.key;
    var tail := ls[1..];
    assert LineKeys(tail) == LineKeys(ls)[1..];
    if i == 0 {
      QuantityOfAbsent(tail, k);
    } else {
      assert tail[i - 1] == ls[i];
      assert LineKeys(ls)[0] != LineKeys(ls)[i];
      QuantityOfLine(tail, i - 1);
    }
  }

  lemma {:induction false} TotalOfAppend(a: seq<Line>, b: seq<Line>)
    ensures TotalOf(a + b) == TotalOf(a) + TotalOf(b)
    decreases |a|
  {
    if a == [] {
      assert a + b == b;
    } else {
      assert (a + b)[1..] == a[1..] + b;
      TotalOfAppend(a[1..], b);
    }
  }

  /** A line position splits the sequence into the lines before it, that
      line, and the lines after it. */
  lemma SplitAt(ls: seq<Line>, i: nat, l: Line)
    requires i < |ls|
    ensures ls == (ls[..i] + [ls[i]]) + ls[i + 1..]
    ensures ls[i := l] == (ls[..i] + [l]) + ls[i + 1..]
  {
  }

  /** Replacing line `i` by `l` changes the total by the difference of their subtotals. */
  lemma TotalOfReplace(ls: seq<Line>, i: nat, l: Line)
    requires i < |ls|
    ensures TotalOf(ls[i := l]) == TotalOf(ls) - LineSubtotal(ls[i]) + LineSubtotal(l)
  {
    var front, back := ls[..i], ls[i + 1..];
    SplitAt(ls, i, l);
    TotalOfAppend(front + [ls[i]], back);
    TotalOfAppend(front, [ls[i]]);
    TotalOfAppend(front + [l], back);
    TotalOfAppend(front, [l]);
    assert [ls[i]][1..] == [] && [l][1..] == [];
  }

  /** Replacing line `i` by `l` changes the quantity of a key by what the two
      lines hold of it. */
  lemma QuantityOfReplace(ls: seq<Line>, i: nat, l: Line, k: Key)
    requires i < |ls|
    ensures QuantityOf(ls[i := l], k) ==
            QuantityOf(ls, k) - (if ls[i].item.key == k then ls[i].quantity else 0)
                              + (if l.item.key == k then l.quantity else 0)
  {
    var front, back := ls[..i], ls[i + 1..];
    SplitAt(ls, i, l);
    QuantityOfAppend(front + [ls[i]], back, k);
    QuantityOfAppend(front, [ls[i]], k);
    QuantityOfAppend(front + [l], back, k);
    QuantityOfAppend(front, [l], k);
    assert [ls[i]][1..] == [] && [l][1..] == [];
  }

  /** Merge-on-add: a key already present gets `q` more units on its line, in
      place; a new key is appended as a line of exactly `q` units. */
  function AddLine(ls: seq<Line>, item: MenuItem, q: int): seq<Line>
  {
    match IndexOf(LineKeys(ls), item.key)
    case Some(i) => ls[i := Line(ls[i].item, ls[i].quantity + q)]
    case None => ls + [Line(item, q)]
  }

  /** Adding `q` units of an item adds `q` to the quantity held for its key and
      leaves every other key's quantity as it was. */
  lemma AddLineQuantities(ls: seq<Line>, item: MenuItem, q: int)
    ensures forall k :: QuantityOf(AddLine(ls, item, q), k) ==
                        QuantityOf(ls, k) + (if k == item.key then q else 0)
  {
    forall k ensures QuantityOf(AddLine(ls, item, q), k) ==
                     QuantityOf(ls, k) + (if k == item.key then q else 0)
    {
      match IndexOf(LineKeys(ls), item.key)
      case Some(i) =>
        AddLineAt(ls, item, q, i);
        QuantityOfReplace(ls, i, Line(ls[i].item, ls[i].quantity + q), k);
      case None =>
        AddLineNew(ls, item, q);
        QuantityOfAppend(ls, [Line(item, q)], k);
        assert [Line(item, q)][1..] == [];
    }
  }

  /** Adding `a` units and then `b` units of the same key is adding `a + b`
      units once: the second add merges into the line the first one made. */
  lemma AddLineTwice(ls: seq<Line>, x: MenuItem, y: MenuItem, a: int, b: int)
    requires x.key == y.key
    ensures AddLine(AddLine(ls, x, a), y, b) == AddLine(ls, x, a + b)
  {
    match IndexOf(LineKeys(ls), x.key)
    case Some(i) =>
      AddLineTwicePresent(ls, x, y, a, b, i);
    case None =>
      AddLineTwiceAbsent(ls, x, y, a, b);
  }

  /** Adding to a key that already has a line raises that line in place and
      keeps the keys. */
  lemma AddLineAt(ls: seq<Line>, item: MenuItem, q: int, i: nat)
    requires IndexOf(LineKeys(ls), item.key) == Some(i)
    ensures AddLine(ls, item, q) == ls[i := Line(ls[i].item, ls[i].quantity + q)]
    ensures LineKeys(AddLine(ls, item, q)) == LineKeys(ls)
  {
    var r := ls[i := Line(ls[i].item, ls[i].quantity + q)];
    assert AddLine(ls, item, q) == r;
    assert forall j :: 0 <= j < |r| ==> LineKeys(r)[j] == LineKeys(ls)[j];
    assert LineKeys(r) == LineKeys(ls);
  }

  /** The second add finds the line the first one raised. */
  lemma AddLineTwicePresent(ls: seq<Line>, x: MenuItem, y: MenuItem, a: int, b: int, i: nat)
    requires x.key == y.key && IndexOf(LineKeys(ls), x.key) == Some(i)
    ensures AddLine(AddLine(ls, x, a), y, b) == AddLine(ls, x, a + b)
  {
    var ls' := AddLine(ls, x, a);
    AddLineAt(ls, x, a, i);
    AddLineAt(ls', y, b, i);
    AddLineAt(ls, x, a + b, i);
    assert ls'[i := Line(ls'[i].item, ls'[i].quantity + b)] == ls[i := Line(ls[i].item, ls[i].quantity + (a + b))];
  }

  /** Adding a key that has no line appends one and extends the keys. */
  lemma AddLineNew(ls: seq<Line>, item: MenuItem, q: int)
    requires item.key !in LineKeys(ls)
    ensures AddLine(ls, item, q) == ls + [Line(item, q)]
    ensures LineKeys(AddLine(ls, item, q)) == LineKeys(ls) + [item.key]
  {
    var r := ls + [Line(item, q)];
    assert AddLine(ls, item, q) == r;
    assert LineKeys(r) == LineKeys(ls) + [item.key];
  }

  /** The second add finds the line the first one appended. */
  lemma AddLineTwiceAbsent(ls: seq<Line>, x: MenuItem, y: MenuItem, a: int, b: int)
    requires x.key == y.key && x.key !in LineKeys(ls)
    ensures AddLine(AddLine(ls, x, a), y, b) == AddLine(ls, x, a + b)
  {
    var ls' := AddLine(ls, x, a);
    var n := |ls|;
    AddLineNew(ls, x, a);
    AddLineNew(ls, x, a + b);
    assert LineKeys(ls')[n] == y.key;
    assert IndexOf(LineKeys(ls'), y.key) == Some(n);
    AddLineAt(ls', y, b, n);
    assert ls'[n := Line(ls'[n].item, ls'[n].quantity + b)] == ls + [Line(x, a + b)];
  }

  /** `add_item(x, 2); add_item(x, 3)` on an empty order leaves one line of 5. */
  lemma MergeOnAddExample(x: MenuItem)
    ensures AddLine(AddLine([], x, 2), x, 3) == [Line(x, 5)]
  {
    AddLineTwice([], x, x, 2, 3);
  }

  /** The same name under two categories makes two lines. */
  lemma SameNameTwoCategories(x: MenuItem, y: MenuItem)
    requires x.Valid() && y.Valid()
    requires x.name == y.name && x.category != y.category
    ensures AddLine(AddLine([], x, 1), y, 1) == [Line(x, 1), Line(y, 1)]
  {
    CategoryDistinguishesKeys(x.name, x.category, y.category);
    assert LineKeys([Line(x, 1)]) == [x.key];
  }

  /** `q` more units on a line add `q` times its item's price. */
  lemma SubtotalRaise(l: Line, q: int)
    ensures LineSubtotal(Line(l.item, l.quantity + q)) == LineSubtotal(l) + q * l.item.price
  {
    var p := l.item.price;
    assert p * (l.quantity + q) == p * l.quantity + p * q;
  }

  /** Adding `q` units raises the total by `q` times the current price of the
      item on the line that receives them. */
  lemma TotalOfAddLine(ls: seq<Line>, item: MenuItem, q: int)
    ensures TotalOf(AddLine(ls, item, q)) == TotalOf(ls) + q *
      (match IndexOf(LineKeys(ls), item.key)
       case Some(i) => ls[i].item.price
       case None => item.price)
  {
    match IndexOf(LineKeys(ls), item.key)
    case Some(i) =>
      var l := Line(ls[i].item, ls[i].quantity + q);
      calc {
        TotalOf(AddLine(ls, item, q));
        { AddLineAt(ls, item, q, i); }
        TotalOf(ls[i := l]);
        { TotalOfReplace(ls, i, l); }
        TotalOf(ls) - LineSubtotal(ls[i]) + LineSubtotal(l);
        { SubtotalRaise(ls[i], q); }
        TotalOf(ls) + q * ls[i].item.price;
      }
    case None =>
      calc {
        TotalOf(AddLine(ls, item, q));
        { AddLineNew(ls, item, q); }
        TotalOf(ls + [Line(item, q)]);
        { TotalOfAppend(ls, [Line(item, q)]); assert [Line(item, q)][1..] == []; }
        TotalOf(ls) + LineSubtotal(Line(item, q));
      }
  }

  /** The outcome of an operation on an order and the order's lines afterwards. */
  datatype Step = Step(outcome: Outcome, lines: seq<Line>)

  /** `add_item`: a quantity below 1 is refused and changes nothing; otherwise
      the lines of other keys stay where they were, a present key keeps the
      line count, and a new key is appended. The invariant is preserved. */
  function AddItemStep(ls: seq<Line>, item: MenuItem, q: int): (s: Step)
    ensures s.outcome == (if q < 1 then Fail(MenuValidationError) else Pass)
    ensures s.outcome.Fail? ==> s.lines == ls
    ensures s.outcome.Pass? && item.key in LineKeys(ls) ==> LineKeys(s.lines) == LineKeys(ls)
    ensures s.outcome.Pass? && item.key !in LineKeys(ls) ==> s.lines == ls + [Line(item, q)]
    ensures forall j :: 0 <= j < |ls| && ls[j].item.key != item.key ==> s.lines[j] == ls[j]
    ensures WellFormed(ls) ==> WellFormed(s.lines)
  {
    if q < 1 then Step(Fail(MenuValidationError), ls)
    else
      var r := AddLine(ls, item, q);
      assert item.key !in LineKeys(ls) ==> LineKeys(r) == LineKeys(ls) + [item.key];
      Step(Pass, r)
  }

  /** `add_item` keeps the item object each line refers to: a merged line
      keeps its own item, and a line it appends refers to the item added. */
  lemma AddItemStepItems(ls: seq<Line>, item: MenuItem, q: int)
    ensures var s := AddItemStep(ls, item, q);
      |ls| <= |s.lines| <= |ls| + 1 &&
      (forall a :: 0 <= a < |ls| ==> s.lines[a].item == ls[a].item) &&
      (forall a :: |ls| <= a < |s.lines| ==> s.lines[a].item == item)
  {
    if q >= 1 {
      match IndexOf(LineKeys(ls), item.key)
      case Some(i) =>
        assert AddLine(ls, item, q) == ls[i := Line(ls[i].item, ls[i].quantity + q)];
      case None =>
        assert AddLine(ls, item, q) == ls + [Line(item, q)];
    }
  }

  /** What `add_item` does to quantities: a refused add changes none, and an
      accepted one adds `q` under the item's key and nowhere else. */
  lemma AddItemStepQuantities(ls: seq<Line>, item: MenuItem, q: int)
    ensures forall k :: QuantityOf(AddItemStep(ls, item, q).lines, k) ==
                        QuantityOf(ls, k) + (if q >= 1 && k == item.key then q else 0)
  {
    if q >= 1 {
      AddLineQuantities(ls, item, q);
    }
  }

  /** `change_item_quantity`: the quantity is checked before the key, so a bad
      quantity is a validation error even for an absent item; an absent key is
      not found; otherwise only that line's quantity changes, to exactly `q`. */
  function ChangeQuantityStep(ls: seq<Line>, item: MenuItem, q: int): (s: Step)
    ensures s.outcome == (if q < 1 then Fail(MenuValidationError)
                          else if item.key !in LineKeys(ls) then Fail(MenuItemNotFoundError)
                          else Pass)
    ensures s.outcome.Fail? ==> s.lines == ls
    ensures LineKeys(s.lines) == LineKeys(ls)
    ensures s.outcome.Pass? && WellFormed(ls) ==> QuantityOf(s.lines, item.key) == q
    ensures forall j :: 0 <= j < |ls| && ls[j].item.key != item.key ==> s.lines[j] == ls[j]
    ensures WellFormed(ls) ==> WellFormed(s.lines)
  {
    if q < 1 then Step(Fail(MenuValidationError), ls)
    else match IndexOf(LineKeys(ls), item.key)
      case None => Step(Fail(MenuItemNotFoundError), ls)
      case Some(i) =>
        var r := ls[i := Line(ls[i].item, q)];
        assert LineKeys(r) == LineKeys(ls);
        assert WellFormed(ls) ==> QuantityOf(r, item.key) == q by {
          if WellFormed(ls) { QuantityOfLine(r, i); }
        }
        Step(Pass, r)
  }

  /** `remove_item`: an absent key is not found and changes nothing; otherwise
      exactly that line is deleted and the others keep their order. */
  function RemoveItemStep(ls: seq<Line>, item: MenuItem): (s: Step)
    ensures s.outcome == (if item.key !in LineKeys(ls) then Fail(MenuItemNotFoundError) else Pass)
    ensures s.outcome.Fail? ==> s.lines == ls
    ensures s.outcome.Pass? ==> (|s.lines| == |ls| - 1 &&
      var i := IndexOf(LineKeys(ls), item.key).value;
      s.lines[..i] == ls[..i] && s.lines[i..] == ls[i + 1..])
    ensures s.outcome.Pass? && WellFormed(ls) ==> item.key !in LineKeys(s.lines)
    ensures WellFormed(ls) ==> WellFormed(s.lines)
  {
    match IndexOf(LineKeys(ls), item.key)
    case None => Step(Fail(MenuItemNotFoundError), ls)
    case Some(i) =>
      RemoveLine(ls, i);
      Step(Pass, ls[..i] + ls[i + 1..])
  }

  /** Deleting line `i` deletes its key from the keys, keeps the lines well
      formed, and leaves its key absent. */
  lemma RemoveLine(ls: seq<Line>, i: nat)
    requires i < |ls|
    ensures LineKeys(ls[..i] + ls[i + 1..]) == LineKeys(ls)[..i] + LineKeys(ls)[i + 1..]
    ensures WellFormed(ls) ==> WellFormed(ls[..i] + ls[i + 1..]) && ls[i].item.key !in LineKeys(ls[..i] + ls[i + 1..])
  {
    var r := ls[..i] + ls[i + 1..];
    assert LineKeys(r) == LineKeys(ls)[..i] + LineKeys(ls)[i + 1..];
    if WellFormed(ls) {
      DistinctRemove(LineKeys(ls), i);
    }
  }

  /** Removing a line lowers the total by that line's subtotal. */
  lemma TotalOfRemove(ls: seq<Line>, i: nat)
    requires i < |ls|
    ensures TotalOf(ls[..i] + ls[i + 1..]) == TotalOf(ls) - LineSubtotal(ls[i])
  {
    var front, back := ls[..i], ls[i + 1..];
    calc {
      TotalOf(ls);
      { SplitAt(ls, i, ls[i]); }
      TotalOf((front + [ls[i]]) + back);
      { TotalOfAppend(front + [ls[i]], back); }
      TotalOf(front + [ls[i]]) + TotalOf(back);
      { TotalOfAppend(front, [ls[i]]); assert [ls[i]][1..] == []; }
      TotalOf(front) + LineSubtotal(ls[i]) + TotalOf(back);
      { TotalOfAppend(front, back); }
      TotalOf(front + back) + LineSubtotal(ls[i]);
    }
  }

  /** The demonstration run, on line values: two pizzas at 45.00 and one
      iced tea at 10.00 total 100.00; three iced teas raise that to 120.00;
      removing the pizza leaves one line of three iced teas, 30.00. */
  lemma DemoTotals(pizza: MenuItem, tea: MenuItem)
    requires pizza.price == 4500 && tea.price == 1000 && pizza.key != tea.key
    ensures var s1 := AddItemStep([], pizza, 2);
      var s2 := AddItemStep(s1.lines, tea, 1);
      var s3 := ChangeQuantityStep(s2.lines, tea, 3);
      var s4 := RemoveItemStep(s3.lines, pizza);
      s2.outcome == s3.outcome == s4.outcome == Pass &&
      TotalOf(s2.lines) == 10000 && TotalOf(s3.lines) == 12000 &&
      s4.lines == [Line(tea, 3)] && TotalOf(s4.lines) == 3000
  {
    var s1 := AddItemStep([], pizza, 2);
    assert s1.lines == [Line(pizza, 2)];
    var s2 := AddItemStep(s1.lines, tea, 1);
    assert LineKeys(s1.lines) == [pizza.key];
    assert s2.lines == [Line(pizza, 2), Line(tea, 1)];
    assert LineKeys(s2.lines) == [pizza.key, tea.key];
    var s3 := ChangeQuantityStep(s2.lines, tea, 3);
    assert s3.lines == [Line(pizza, 2), Line(tea, 3)];
    var s4 := RemoveItemStep(s3.lines, pizza);
    assert s4.lines == [Line(tea, 3)];
    assert s2.lines[1..] == [Line(tea, 1)] && s3.lines[1..] == [Line(tea, 3)];
    assert [Line(tea, 1)][1..] == [] && [Line(tea, 3)][1..] == [];
    assert TotalOf([Line(tea, 1)]) == 1000;
    assert TotalOf(s2.lines) == LineSubtotal(Line(pizza, 2)) + TotalOf([Line(tea, 1)]);
    assert LineSubtotal(Line(pizza, 2)) == 9000;
  }

  /** The values of a sequence of line objects. */
  function LinesOf(xs: seq<OrderItem>): (ls: seq<Line>)
    reads xs
    ensures |ls| == |xs| && forall i :: 0 <= i < |xs| ==> ls[i] == Line(xs[i].item, xs[i].quantity)
  {
    seq(|xs|, i requires 0 <= i < |xs| reads xs => Line(xs[i].item, xs[i].quantity))
  }

  /** `sum(order_item.subtotal() ...)`: adding the objects' subtotals gives the
      total of their values. */
  function SumSubtotals(xs: seq<OrderItem>): (r: int)
    reads xs, set x | x in xs :: x.item
    ensures r == TotalOf(LinesOf(xs))
  {
    if xs == [] then 0
    else
      assert LinesOf(xs)[1..] == LinesOf(xs[1..]);
      xs[0].Subtotal() + SumSubtotals(xs[1..])
  }

  class Order {
    const orderId: int
    var status: OrderStatus
    var items: seq<OrderItem>

    /** The values of the lines, in insertion order. */
    function Lines(): seq<Line>
      reads this, items
    {
      LinesOf(items)
    }

    /** The order invariant on the line objects: a positive id, at most one
        line per key, every quantity at least 1. */
    predicate Valid()
      reads this, items
    {
      orderId >= 1 &&
      (forall i, j :: 0 <= i < j < |items| ==> items[i].item.key != items[j].item.key) &&
      (forall i :: 0 <= i < |items| ==> items[i].quantity >= 1)
    }

    /** The invariant says exactly that the line values are well formed. */
    lemma ValidLines()
      ensures Valid() <==> orderId >= 1 && WellFormed(Lines())
    {
      assert forall i :: 0 <= i < |items| ==> LineKeys(Lines())[i] == items[i].item.key;
    }

    /** The constructor on its success path; `Create` is the guarded form. */
    constructor (orderId: int, status: OrderStatus)
      requires orderId >= 1
      ensures Valid()
      ensures this.orderId == orderId && this.status == status && items == []
    {
      this.orderId := orderId;
      this.status := status;
      items := [];
    }

    /** Construction refuses an id below 1; otherwise the order is empty. */
    static method Create(orderId: int, status: OrderStatus) returns (r: Result<Order>)
      ensures orderId < 1 <==> r.Err?
      ensures r.Err? ==> r.error == MenuValidationError
      ensures r.Ok? ==> fresh(r.value) && r.value.Valid()
      ensures r.Ok? ==> r.value.orderId == orderId && r.value.status == status && r.value.items == []
    {
      if orderId < 1 {
        return Err(MenuValidationError);
      }
      var o := new Order(orderId, status);
      r := Ok(o);
    }

    /** One line object per key, each with a quantity of at least 1, in insertion order. */
    function GetItems(): (r: seq<OrderItem>)
      reads this, items
      requires Valid()
      ensures LinesOf(r) == Lines()
      ensures forall i, j :: 0 <= i < j < |r| ==> r[i] != r[j] && r[i].item.key != r[j].item.key
      ensures forall i :: 0 <= i < |r| ==> r[i].quantity >= 1
    {
      items
    }

    /** The live total: the subtotals of the line objects, which equal the
        total of the line values at the items' current prices. */
    function Total(): (r: int)
      reads this, items, set x | x in items :: x.item
      ensures r == TotalOf(Lines())
    {
      SumSubtotals(items)
    }

    /** Line objects kept in order with only new ones after them are each
        either an old line object or a new one. */
    twostate lemma ItemsGrown()
      requires |old(items)| <= |items| && items[..|old(items)|] == old(items)
      requires forall a :: |old(items)| <= a < |items| ==> fresh(items[a])
      ensures forall x :: x in items ==> x in old(items) || fresh(x)
    {
      forall x | x in items ensures x in old(items) || fresh(x) {
        var a :| 0 <= a < |items| && items[a] == x;
        if a < |old(items)| {
          assert x == old(items)[a];
        }
      }
    }

    /** `add_item`, in place: the lines change as `AddItemStep` says, merging into
        the line of the same key or appending a fresh line object. */
    method AddItem(item: MenuItem, quantity: int) returns (r: Outcome)
      requires Valid()
      modifies this`items, items
      ensures Valid()
      ensures Step(r, Lines()) == AddItemStep(old(Lines()), item, quantity)
      ensures |old(items)| <= |items| && items[..|old(items)|] == old(items)
      ensures forall a :: |old(items)| <= a < |items| ==> fresh(items[a])
    {
      if quantity < 1 {
        return Fail(MenuValidationError);
      }
      ValidLines();
      ghost var ls := Lines();
      match IndexOf(LineKeys(Lines()), item.key)
      case Some(i) =>
        var existing := items[i];
        var o := existing.UpdateQuantity(existing.quantity + quantity);
        assert Lines() == ls[i := Line(ls[i].item, ls[i].quantity + quantity)];
        assert Lines() == AddItemStep(ls, item, quantity).lines;
        ValidLines();
        r := Pass;
      case None =>
        var line := new OrderItem(item, quantity);
        items := items + [line];
        assert Lines() == ls + [Line(item, quantity)];
        assert Lines() == AddItemStep(ls, item, quantity).lines;
        ValidLines();
        r := Pass;
    }

    /** `change_item_quantity`, in place: the lines change as `ChangeQuantityStep`
        says, the quantity being set on the existing line object. */
    method ChangeItemQuantity(item: MenuItem, newQuantity: int) returns (r: Outcome)
      requires Valid()
      modifies items
      ensures Valid() && items == old(items)
      ensures Step(r, Lines()) == ChangeQuantityStep(old(Lines()), item, newQuantity)
    {
      if newQuantity < 1 {
        return Fail(MenuValidationError);
      }
      ValidLines();
      ghost var ls := Lines();
      match IndexOf(LineKeys(Lines()), item.key)
      case None =>
        return Fail(MenuItemNotFoundError);
      case Some(i) =>
        var line := items[i];
        var o := line.UpdateQuantity(newQuantity);
        assert Lines() == ls[i := Line(ls[i].item, newQuantity)];
        ValidLines();
        r := Pass;
    }

    /** `remove_item`, in place: the lines change as `RemoveItemStep` says, the
        line of that key being deleted from the list. */
    method RemoveItem(item: MenuItem) returns (r: Outcome)
      requires Valid()
      modifies this`items
      ensures Valid()
      ensures Step(r, Lines()) == RemoveItemStep(old(Lines()), item)
      ensures forall x :: x in items ==> x in old(items)
    {
      ValidLines();
      ghost var ls := Lines();
      match IndexOf(LineKeys(Lines()), item.key)
      case None =>
        return Fail(MenuItemNotFoundError);
      case Some(i) =>
        items := items[..i] + items[i + 1..];
        assert Lines() == ls[..i] + ls[i + 1..];
        assert Lines() == RemoveItemStep(ls, item).lines;
        ValidLines();
        r := Pass;
    }

    /** Replaces the status; there is no transition check. */
    method SetStatus(newStatus: OrderStatus)
      modifies this`status
      ensures status == newStatus
    {
      status := newStatus;
    }
  }
}
