/** The catalog: menu items keyed by `(name.strip().lower(), category)`, in
    insertion order. The dictionary is a sequence of item objects whose
    stored keys are distinct; `del` removes an entry in place. */
module Menus {
  import opened Errors
  import opened Enums
  import opened Keys
  import opened MenuItems

  /** The keys of the items, in order. */
  function ItemKeys(xs: seq<MenuItem>): (ks: seq<Key>)
    ensures |ks| == |xs| && forall i :: 0 <= i < |xs| ==> ks[i] == xs[i].key
  {
    seq(|xs|, i requires 0 <= i < |xs| => xs[i].key)
  }

  /** Dictionary lookup: the item stored under `k`, if any. */
  function Find(xs: seq<MenuItem>, k: Key): (r: Option<MenuItem>)
    ensures r.None? <==> k !in ItemKeys(xs)
    ensures r.Some? ==> r.value in xs && r.value.key == k
  {
    match IndexOf(ItemKeys(xs), k)
    case Some(i) => Some(xs[i])
    case None => None
  }

  /** With distinct keys, looking up an item's key finds that very item. */
  lemma FindAt(xs: seq<MenuItem>, i: nat)
    requires Distinct(ItemKeys(xs)) && i < |xs|
    ensures Find(xs, xs[i].key) == Some(xs[i])
  {
    IndexOfDistinct(ItemKeys(xs), i);
  }

  /** Appending an item under a new key makes it the one found under that key,
      and every other key finds what it found before. */
  lemma FindAfterAppend(xs: seq<MenuItem>, x: MenuItem, k: Key)
    requires Distinct(ItemKeys(xs)) && x.key !in ItemKeys(xs)
    ensures Find(xs + [x], k) == if k == x.key then Some(x) else Find(xs, k)
  {
    var ys := xs + [x];
    assert ItemKeys(ys) == ItemKeys(xs) + [x.key];
    if k == x.key {
      FindAt(ys, |xs|);
    } else if k in ItemKeys(xs) {
      var i := IndexOf(ItemKeys(xs), k).value;
      FindAt(xs, i);
      FindAt(ys, i);
    }
  }

  /** Deleting the entry at `i` makes its key absent, and every other key
      finds what it found before. */
  lemma FindAfterRemove(xs: seq<MenuItem>, i: nat, k: Key)
    requires Distinct(ItemKeys(xs)) && i < |xs|
    ensures Find(xs[..i] + xs[i + 1..], k) == if k == xs[i].key then None else Find(xs, k)
  {
    var ys := xs[..i] + xs[i + 1..];
    assert ItemKeys(ys) == ItemKeys(xs)[..i] + ItemKeys(xs)[i + 1..];
    DistinctRemove(ItemKeys(xs), i);
    if k != xs[i].key && k in ItemKeys(xs) {
      var j := IndexOf(ItemKeys(xs), k).value;
      FindAt(xs, j);
      var j' := if j < i then j else j - 1;
      assert ys[j'] == xs[j];
      FindAt(ys, j');
    }
  }

  /** Appending items keeps every key that was present. */
  lemma KeysGrow(xs: seq<MenuItem>, ys: seq<MenuItem>)
    requires |xs| <= |ys| && ys[..|xs|] == xs
    ensures forall k :: k in ItemKeys(xs) ==> k in ItemKeys(ys)
  {
    forall k | k in ItemKeys(xs) ensures k in ItemKeys(ys) {
      var i :| 0 <= i < |xs| && ItemKeys(xs)[i] == k;
      assert ys[i] == xs[i];
      assert ItemKeys(ys)[i] == k;
    }
  }

  /** The items of category `c`, in insertion order. */
  function ByCategory(xs: seq<MenuItem>, c: Category): (r: seq<MenuItem>)
    ensures forall i :: 0 <= i < |r| ==> r[i] in xs && r[i].category == c
    ensures forall i :: 0 <= i < |xs| && xs[i].category == c ==> xs[i] in r
  {
    if xs == [] then []
    else
      var last := xs[|xs| - 1];
      ByCategory(xs[..|xs| - 1], c) + (if last.category == c then [last] else [])
  }

  /** Filtering by category keeps the order: it distributes over concatenation. */
  lemma {:induction false} ByCategoryAppend(a: seq<MenuItem>, b: seq<MenuItem>, c: Category)
    ensures ByCategory(a + b, c) == ByCategory(a, c) + ByCategory(b, c)
    decreases |b|
  {
    if b == [] {
      assert a + b == a;
    } else {
      var n := |b| - 1;
      var tail := if b[n].category == c then [b[n]] else [];
      calc {
        ByCategory(a + b, c);
        { assert (a + b)[..|a + b| - 1] == a + b[..n]; }
        ByCategory(a + b[..n], c) + tail;
        { ByCategoryAppend(a, b[..n], c); }
        (ByCategory(a, c) + ByCategory(b[..n], c)) + tail;
        ByCategory(a, c) + (ByCategory(b[..n], c) + tail);
      }
    }
  }

  /** `keyword in name.lower() or keyword in description.lower()`. */
  predicate MatchesKeyword(x: MenuItem, keyword: string)
    reads x
  {
    IsInfix(keyword, Lower(x.name)) || IsInfix(keyword, Lower(x.description))
  }

  /** The items matching an already normalised keyword, in insertion order. */
  function Matching(xs: seq<MenuItem>, keyword: string): (r: seq<MenuItem>)
    reads xs
    ensures forall i :: 0 <= i < |r| ==> r[i] in xs && MatchesKeyword(r[i], keyword)
    ensures forall i :: 0 <= i < |xs| && MatchesKeyword(xs[i], keyword) ==> xs[i] in r
  {
    if xs == [] then []
    else
      var last := xs[|xs| - 1];
      Matching(xs[..|xs| - 1], keyword) + (if MatchesKeyword(last, keyword) then [last] else [])
  }

  /** Searching keeps the order: it distributes over concatenation. */
  lemma {:induction false} MatchingAppend(a: seq<MenuItem>, b: seq<MenuItem>, keyword: string)
    ensures Matching(a + b, keyword) == Matching(a, keyword) + Matching(b, keyword)
    decreases |b|
  {
    if b == [] {
      assert a + b == a;
    } else {
      var n := |b| - 1;
      var tail := if MatchesKeyword(b[n], keyword) then [b[n]] else [];
      calc {
        Matching(a + b, keyword);
        { assert (a + b)[..|a + b| - 1] == a + b[..n]; }
        Matching(a + b[..n], keyword) + tail;
        { MatchingAppend(a, b[..n], keyword); }
        (Matching(a, keyword) + Matching(b[..n], keyword)) + tail;
        Matching(a, keyword) + (Matching(b[..n], keyword) + tail);
      }
    }
  }

  /** A keyword made only of whitespace finds every item, in order. */
  lemma {:induction false} BlankSearchFindsAll(xs: seq<MenuItem>, keyword: string)
    requires forall i :: 0 <= i < |keyword| ==> IsSpace(keyword[i])
    ensures Matching(xs, Normalize(keyword)) == xs
    decreases |xs|
  {
    if xs != [] {
      var n := |xs| - 1;
      BlankKeywordMatchesAll(keyword, Lower(xs[n].name));
      BlankSearchFindsAll(xs[..n], keyword);
      assert xs[..n] + [xs[n]] == xs;
    }
  }

  class Menu {
    var items: seq<MenuItem>

    /** Keys are unique and each item's stored key is its own. */
    predicate Valid()
      reads this
    {
      Distinct(ItemKeys(items)) && forall i :: 0 <= i < |items| ==> items[i].Valid()
    }

    constructor ()
      ensures Valid() && items == []
    {
      items := [];
    }

    /** `get_item`: never fails; None exactly when the key of `name` and
        `category` is absent, otherwise the item stored under that key. */
    function GetItem(name: string, category: Category): (r: Option<MenuItem>)
      reads this
      ensures r.None? <==> MakeKey(name, category) !in ItemKeys(items)
      ensures r.Some? ==> r.value in items && r.value.key == MakeKey(name, category)
    {
      Find(items, MakeKey(name, category))
    }

    /** `add_item`: a taken key is refused and the first item stays; otherwise
        the item is appended, and every name with the same normal form then
        finds it under its category. */
    method AddItem(item: MenuItem) returns (r: Outcome)
      requires Valid() && item.Valid()
      modifies this`items
      ensures Valid()
      ensures r == if item.key in ItemKeys(old(items)) then Fail(MenuItemExistsError) else Pass
      ensures r.Fail? ==> items == old(items)
      ensures r.Pass? ==> items == old(items) + [item]
      ensures r.Pass? ==> forall n :: Normalize(n) == Normalize(item.name) ==>
                GetItem(n, item.category) == Some(item)
    {
      if item.key in ItemKeys(items) {
        return Fail(MenuItemExistsError);
      }
      FindAfterAppend(items, item, item.key);
      items := items + [item];
      assert ItemKeys(items) == ItemKeys(old(items)) + [item.key];
      r := Pass;
    }

    /** `remove_item`: an absent key is not found and nothing changes;
        otherwise that entry is deleted in place, its key is then absent and
        every other key finds what it found before. */
    method RemoveItem(name: string, category: Category) returns (r: Outcome)
      requires Valid()
      modifies this`items
      ensures Valid()
      ensures r == if MakeKey(name, category) in ItemKeys(old(items)) then Pass
                   else Fail(MenuItemNotFoundError)
      ensures r.Fail? ==> items == old(items)
      ensures r.Pass? ==> var i := IndexOf(ItemKeys(old(items)), MakeKey(name, category)).value;
                items == old(items)[..i] + old(items)[i + 1..]
      ensures GetItem(name, category).None?
      ensures forall k :: k != MakeKey(name, category) ==> Find(items, k) == Find(old(items), k)
    {
      var k := MakeKey(name, category);
      match IndexOf(ItemKeys(items), k)
      case None =>
        return Fail(MenuItemNotFoundError);
      case Some(i) =>
        forall k' ensures Find(items[..i] + items[i + 1..], k') == if k' == k then None else Find(items, k') {
          FindAfterRemove(items, i, k');
        }
        DistinctRemove(ItemKeys(items), i);
        items := items[..i] + items[i + 1..];
        assert ItemKeys(items) == ItemKeys(old(items))[..i] + ItemKeys(old(items))[i + 1..];
        r := Pass;
    }

    /** `list_items`: every item, or the items of one category, in insertion order. */
    method ListItems(category: Option<Category>) returns (r: seq<MenuItem>)
      ensures category.None? ==> r == items
      ensures category.Some? ==> r == ByCategory(items, category.value)
    {
      if category.None? {
        return items;
      }
      var c := category.value;
      r := [];
      var i := 0;
      while i < |items|
        invariant 0 <= i <= |items|
        invariant r == ByCategory(items[..i], c)
      {
        assert items[..i + 1][..i] == items[..i];
        if items[i].category == c {
          r := r + [items[i]];
        }
        i := i + 1;
      }
      assert items[..i] == items;
    }

    /** `update_item_price`: an absent key is not found; otherwise the item's
        own `update_price` decides. Only the addressed item's price can change. */
    method UpdateItemPrice(name: string, category: Category, newPrice: int) returns (r: Outcome)
      requires Valid()
      modifies items
      ensures Valid()
      ensures r == if MakeKey(name, category) !in ItemKeys(items) then Fail(MenuItemNotFoundError)
                   else if newPrice <= 0 then Fail(MenuValidationError)
                   else Pass
      ensures forall x :: x in items ==>
                x.price == (if r.Pass? && x.key == MakeKey(name, category) then newPrice else old(x.price))
      ensures forall x :: x in items ==> x.available == old(x.available) && x.description == old(x.description)
    {
      var k := MakeKey(name, category);
      match IndexOf(ItemKeys(items), k)
      case None =>
        return Fail(MenuItemNotFoundError);
      case Some(i) =>
        var item := items[i];
        r := item.UpdatePrice(newPrice);
    }

    /** `set_item_availability`: an absent key is not found; otherwise only the
        addressed item's flag is set. */
    method SetItemAvailability(name: string, category: Category, status: bool) returns (r: Outcome)
      requires Valid()
      modifies items
      ensures Valid()
      ensures r == if MakeKey(name, category) !in ItemKeys(items) then Fail(MenuItemNotFoundError) else Pass
      ensures forall x :: x in items ==>
                x.available == (if r.Pass? && x.key == MakeKey(name, category) then status else old(x.available))
      ensures forall x :: x in items ==> x.price == old(x.price) && x.description == old(x.description)
    {
      var k := MakeKey(name, category);
      match IndexOf(ItemKeys(items), k)
      case None =>
        return Fail(MenuItemNotFoundError);
      case Some(i) =>
        var item := items[i];
        item.SetAvailability(status);
        r := Pass;
    }

    /** `search`: the items whose lower-cased name or description contains the
        stripped, lower-cased keyword, in insertion order. */
    method Search(keyword: string) returns (r: seq<MenuItem>)
      ensures r == Matching(items, Normalize(keyword))
    {
      var normalized := Normalize(keyword);
      r := [];
      var i := 0;
      while i < |items|
        invariant 0 <= i <= |items|
        invariant r == Matching(items[..i], normalized)
      {
        assert items[..i + 1][..i] == items[..i];
        if IsInfix(normalized, Lower(items[i].name)) || IsInfix(normalized, Lower(items[i].description)) {
          r := r + [items[i]];
        }
        i := i + 1;
      }
      assert items[..i] == items;
    }
  }
}
