/** The decoded contents of the two data files read by `load_data`: item
    records, line records and order records, with the quantities a list of
    line records asks for. */
module Records {
  import opened Enums
  import opened Keys

  /** One serialised menu item. */
  datatype ItemRecord = ItemRecord(name: string, price: int, category: Category,
                                   description: string, available: bool)

  /** One serialised order line: the item it refers to and how many. */
  datatype LineRecord = LineRecord(item: ItemRecord, quantity: int)

  /** One serialised order. */
  datatype OrderRecord = OrderRecord(orderId: int, status: OrderStatus, lines: seq<LineRecord>)

  /** The catalog key an item record is filed under. */
  function RecordKey(rec: ItemRecord): Key
  {
    MakeKey(rec.name, rec.category)
  }

  /** How many units of the key `k` a list of line records asks for in total. */
  function RecordQuantity(lines: seq<LineRecord>, k: Key): int
  {
    if lines == [] then 0
    else
      var last := lines[|lines| - 1];
      RecordQuantity(lines[..|lines| - 1], k) + (if RecordKey(last.item) == k then last.quantity else 0)
  }

  /** The keys the item records carry. */
  function KeysOf(recs: seq<ItemRecord>): set<Key>
  {
    set i | 0 <= i < |recs| :: RecordKey(recs[i])
  }

  /** The item records that add an item when resolved in turn against a menu
      holding the keys `keys`: the first record with each key not on the
      menu. A record whose key is already there, on the menu or by an
      earlier record, is skipped. */
  function NewRecords(keys: set<Key>, recs: seq<ItemRecord>): seq<ItemRecord>
  {
    if recs == [] then []
    else
      var n := |recs| - 1;
      var key := RecordKey(recs[n]);
      NewRecords(keys, recs[..n]) + if key !in keys && key !in KeysOf(recs[..n]) then [recs[n]] else []
  }

  /** The item records the line records refer to, in order. */
  function LineRecordItems(lines: seq<LineRecord>): (items: seq<ItemRecord>)
    ensures |items| == |lines| && forall i :: 0 <= i < |lines| ==> items[i] == lines[i].item
  {
    seq(|lines|, i requires 0 <= i < |lines| => lines[i].item)
  }

  /** The item records the lines of the order records refer to, in file order. */
  function ReferencedItems(recs: seq<OrderRecord>): seq<ItemRecord>
  {
    if recs == [] then []
    else ReferencedItems(recs[..|recs| - 1]) + LineRecordItems(recs[|recs| - 1].lines)
  }

  /** One more record brings its own key. */
  lemma KeysOfSnoc(recs: seq<ItemRecord>, x: ItemRecord)
    ensures KeysOf(recs + [x]) == KeysOf(recs) + {RecordKey(x)}
  {
    var all := recs + [x];
    assert RecordKey(all[|recs|]) == RecordKey(x);
    forall k | k in KeysOf(recs) ensures k in KeysOf(all) {
      var i :| 0 <= i < |recs| && RecordKey(recs[i]) == k;
      assert all[i] == recs[i];
    }
  }

  /** Resolving one more record adds it exactly when its key is neither on
      the menu nor carried by an earlier record. */
  lemma NewRecordsSnoc(keys: set<Key>, recs: seq<ItemRecord>, x: ItemRecord)
    ensures NewRecords(keys, recs + [x]) ==
            NewRecords(keys, recs) + if RecordKey(x) !in keys && RecordKey(x) !in KeysOf(recs) then [x] else []
  {
    assert (recs + [x])[..|recs|] == recs;
  }

  /** A single record is added exactly when its key is not on the menu. */
  lemma NewRecordsSingle(keys: set<Key>, rec: ItemRecord)
    ensures NewRecords(keys, [rec]) == if RecordKey(rec) in keys then [] else [rec]
  {
    NewRecordsSnoc(keys, [], rec);
    assert [] + [rec] == [rec];
  }

  /** After the records are resolved, the menu holds exactly its old keys
      and the keys of all the records. */
  lemma {:induction false} NewRecordsCover(keys: set<Key>, recs: seq<ItemRecord>)
    ensures keys + KeysOf(NewRecords(keys, recs)) == keys + KeysOf(recs)
  {
    if recs != [] {
      var n := |recs| - 1;
      var x := recs[n];
      var added := NewRecords(keys, recs[..n]);
      NewRecordsCover(keys, recs[..n]);
      assert recs == recs[..n] + [x];
      NewRecordsSnoc(keys, recs[..n], x);
      KeysOfSnoc(recs[..n], x);
      if RecordKey(x) !in keys && RecordKey(x) !in KeysOf(recs[..n]) {
        KeysOfSnoc(added, x);
      } else {
        assert NewRecords(keys, recs) == added;
      }
    }
  }

  /** Every record added is one of the records, with a key that was not on the menu. */
  lemma {:induction false} NewRecordsFrom(keys: set<Key>, recs: seq<ItemRecord>)
    ensures forall p :: 0 <= p < |NewRecords(keys, recs)| ==>
              NewRecords(keys, recs)[p] in recs && RecordKey(NewRecords(keys, recs)[p]) !in keys
  {
    if recs != [] {
      var n := |recs| - 1;
      var x := recs[n];
      NewRecordsFrom(keys, recs[..n]);
      assert recs == recs[..n] + [x];
      NewRecordsSnoc(keys, recs[..n], x);
    }
  }

  /** No two records added share a key. */
  lemma {:induction false} NewRecordsDistinct(keys: set<Key>, recs: seq<ItemRecord>)
    ensures forall p, q :: 0 <= p < q < |NewRecords(keys, recs)| ==>
              RecordKey(NewRecords(keys, recs)[p]) != RecordKey(NewRecords(keys, recs)[q])
  {
    if recs != [] {
      var n := |recs| - 1;
      var x := recs[n];
      var added := NewRecords(keys, recs[..n]);
      NewRecordsDistinct(keys, recs[..n]);
      NewRecordsFrom(keys, recs[..n]);
      assert recs == recs[..n] + [x];
      NewRecordsSnoc(keys, recs[..n], x);
      forall p | 0 <= p < |added| ensures RecordKey(added[p]) in KeysOf(recs[..n]) {
        var i :| 0 <= i < n && recs[..n][i] == added[p];
      }
    }
  }

  /** Resolving `a` and then `b` adds what resolving `a` adds, followed by
      what resolving `b` adds once the keys of `a` are on the menu too. */
  lemma {:induction false} NewRecordsAppend(keys: set<Key>, a: seq<ItemRecord>, b: seq<ItemRecord>)
    ensures NewRecords(keys, a + b) == NewRecords(keys, a) + NewRecords(keys + KeysOf(a), b)
  {
    if b == [] {
      assert a + b == a;
    } else {
      var n := |b| - 1;
      var x := b[n];
      var first, rest := NewRecords(keys, a), NewRecords(keys + KeysOf(a), b[..n]);
      NewRecordsAppend(keys, a, b[..n]);
      assert a + b == (a + b[..n]) + [x] && b == b[..n] + [x];
      NewRecordsSnoc(keys, a + b[..n], x);
      NewRecordsSnoc(keys + KeysOf(a), b[..n], x);
      KeysOfAppend(a, b[..n]);
      if RecordKey(x) !in keys + KeysOf(a) && RecordKey(x) !in KeysOf(b[..n]) {
        assert (first + rest) + [x] == first + (rest + [x]);
      } else {
        assert NewRecords(keys, a + b) == first + rest;
      }
    }
  }

  lemma KeysOfAppend(a: seq<ItemRecord>, b: seq<ItemRecord>)
    ensures KeysOf(a + b) == KeysOf(a) + KeysOf(b)
  {
    var all := a + b;
    forall k | k in KeysOf(a) ensures k in KeysOf(all) {
      var i :| 0 <= i < |a| && RecordKey(a[i]) == k;
      assert all[i] == a[i];
    }
    forall k | k in KeysOf(b) ensures k in KeysOf(all) {
      var i :| 0 <= i < |b| && RecordKey(b[i]) == k;
      assert all[|a| + i] == b[i];
    }
  }

  /** Every line of every order record refers to one of the referenced items. */
  lemma {:induction false} ReferencedHas(recs: seq<OrderRecord>)
    ensures forall j, i :: 0 <= j < |recs| && 0 <= i < |recs[j].lines| ==> recs[j].lines[i].item in ReferencedItems(recs)
  {
    if recs != [] {
      var n := |recs| - 1;
      ReferencedHas(recs[..n]);
      forall j, i | 0 <= j < |recs| && 0 <= i < |recs[j].lines|
        ensures recs[j].lines[i].item in ReferencedItems(recs)
      {
        if j < n {
          assert recs[..n][j] == recs[j];
        } else {
          assert LineRecordItems(recs[n].lines)[i] == recs[j].lines[i].item;
        }
      }
    }
  }

  /** After the menu records and then every line's item are resolved, the key
      of every menu record and of every line's item is on the menu. */
  lemma LoadCovers(keys: set<Key>, items: seq<ItemRecord>, recs: seq<OrderRecord>)
    ensures var after := keys + KeysOf(NewRecords(keys, items + ReferencedItems(recs)));
      (forall i :: 0 <= i < |items| ==> RecordKey(items[i]) in after) &&
      forall j, i :: 0 <= j < |recs| && 0 <= i < |recs[j].lines| ==> RecordKey(recs[j].lines[i].item) in after
  {
    var all := items + ReferencedItems(recs);
    NewRecordsCover(keys, all);
    ReferencedHas(recs);
    forall i | 0 <= i < |items| ensures RecordKey(items[i]) in KeysOf(all) {
      assert all[i] == items[i];
    }
    forall j, i | 0 <= j < |recs| && 0 <= i < |recs[j].lines|
      ensures RecordKey(recs[j].lines[i].item) in KeysOf(all)
    {
      var x := recs[j].lines[i].item;
      var q :| 0 <= q < |ReferencedItems(recs)| && ReferencedItems(recs)[q] == x;
      assert all[|items| + q] == x;
    }
  }

  /** A key no line record carries gets no units. */
  lemma {:induction false} RecordQuantityAbsent(lines: seq<LineRecord>, k: Key)
    requires forall i :: 0 <= i < |lines| ==> RecordKey(lines[i].item) != k
    ensures RecordQuantity(lines, k) == 0
  {
    if lines != [] {
      RecordQuantityAbsent(lines[..|lines| - 1], k);
    }
  }

  /** The keys an order's lines take, in order, once the line records are
      added in turn: each key where it first occurs, since `add_item` merges
      a repeated key into the line already there. */
  function FirstKeys(lines: seq<LineRecord>): seq<Key>
  {
    if lines == [] then []
    else
      var ks := FirstKeys(lines[..|lines| - 1]);
      var k := RecordKey(lines[|lines| - 1].item);
      if k in ks then ks else ks + [k]
  }

  /** The keys of the item records, in order. */
  function RecordKeys(recs: seq<ItemRecord>): (ks: seq<Key>)
    ensures |ks| == |recs| && forall i :: 0 <= i < |recs| ==> ks[i] == RecordKey(recs[i])
  {
    seq(|recs|, i requires 0 <= i < |recs| => RecordKey(recs[i]))
  }

  /** A key is among the records' keys in order exactly when it is in their key set. */
  lemma RecordKeysIn(recs: seq<ItemRecord>, k: Key)
    ensures k in RecordKeys(recs) <==> k in KeysOf(recs)
  {
    if k in KeysOf(recs) {
      var p :| 0 <= p < |recs| && RecordKey(recs[p]) == k;
      assert RecordKeys(recs)[p] == k;
    }
  }

  /** The first-occurrence order of the line keys is the key order of the
      records an empty menu would gain from those lines, so the keys are
      distinct (`NewRecordsDistinct`) and are exactly the lines' keys
      (`NewRecordsCover`). */
  lemma {:induction false} FirstKeysNew(lines: seq<LineRecord>)
    ensures FirstKeys(lines) == RecordKeys(NewRecords({}, LineRecordItems(lines)))
  {
    if lines != [] {
      var n := |lines| - 1;
      var pre, x := LineRecordItems(lines[..n]), lines[n].item;
      FirstKeysNew(lines[..n]);
      assert LineRecordItems(lines) == pre + [x];
      NewRecordsSnoc({}, pre, x);
      var news := NewRecords({}, pre);
      NewRecordsCover({}, pre);
      RecordKeysIn(news, RecordKey(x));
      assert RecordKeys(news + [x]) == RecordKeys(news) + [RecordKey(x)];
    }
  }

  /** Every line record asks for at least one unit. */
  predicate LinesLoadable(lines: seq<LineRecord>)
  {
    forall i :: 0 <= i < |lines| ==> lines[i].quantity >= 1
  }

  /** Every order record has an id of at least 1 and only lines of at least one unit. */
  predicate OrdersLoadable(recs: seq<OrderRecord>)
  {
    forall j :: 0 <= j < |recs| ==> recs[j].orderId >= 1 && LinesLoadable(recs[j].lines)
  }

  /** No later record carries the id of record `j`: it is the one that stays
      registered under that id. */
  predicate LastWithId(recs: seq<OrderRecord>, j: int)
  {
    0 <= j < |recs| && forall j' :: j < j' < |recs| ==> recs[j'].orderId != recs[j].orderId
  }

  /** The ids the order records carry. */
  function RecordIds(recs: seq<OrderRecord>): (ids: set<int>)
    ensures forall j :: 0 <= j < |recs| ==> recs[j].orderId in ids
  {
    if recs == [] then {}
    else
      var n := |recs| - 1;
      assert forall j :: 0 <= j < n ==> recs[j] == recs[..n][j];
      RecordIds(recs[..n]) + {recs[n].orderId}
  }

  /** `max_order_id`: the running maximum of the ids, starting from 0. */
  function MaxId(recs: seq<OrderRecord>): int
  {
    if recs == [] then 0
    else
      var m := MaxId(recs[..|recs| - 1]);
      var id := recs[|recs| - 1].orderId;
      if id > m then id else m
  }

  /** The counter after a load: one past the largest id, or 1 when no id
      above 0 was read. */
  function NextId(recs: seq<OrderRecord>): int
  {
    if MaxId(recs) > 0 then MaxId(recs) + 1 else 1
  }

  /** The running maximum is 0 or one of the ids, and no id exceeds it. */
  lemma {:induction false} MaxIdBounds(recs: seq<OrderRecord>)
    ensures MaxId(recs) >= 0
    ensures forall id :: id in RecordIds(recs) ==> id <= MaxId(recs)
    ensures MaxId(recs) == 0 || MaxId(recs) in RecordIds(recs)
  {
    if recs != [] {
      MaxIdBounds(recs[..|recs| - 1]);
    }
  }

  /** The counter after a load is at least 1, above every id read, and when
      an id above 0 was read it is one past one of them. */
  lemma NextIdAbove(recs: seq<OrderRecord>)
    ensures NextId(recs) >= 1
    ensures forall id :: id in RecordIds(recs) ==> id < NextId(recs)
    ensures NextId(recs) == 1 || NextId(recs) - 1 in RecordIds(recs)
  {
    MaxIdBounds(recs);
  }

  /** The ids of the first `j` records are among the ids of all of them. */
  lemma {:induction false} RecordIdsPrefix(recs: seq<OrderRecord>, j: nat)
    requires j <= |recs|
    ensures RecordIds(recs[..j]) <= RecordIds(recs)
    decreases |recs| - j
  {
    if j < |recs| {
      RecordIdsPrefix(recs, j + 1);
      assert recs[..j + 1][..j] == recs[..j];
    } else {
      assert recs[..j] == recs;
    }
  }

  /** The ids of a registry holding `ids` once the records are registered
      in turn: an id already there keeps its place and a new one is
      appended, as assignment into a dict does. */
  function IdsAfter(ids: seq<int>, recs: seq<OrderRecord>): seq<int>
  {
    if recs == [] then ids
    else
      var before := IdsAfter(ids, recs[..|recs| - 1]);
      var id := recs[|recs| - 1].orderId;
      if id in before then before else before + [id]
  }

  /** Registering keeps the old ids in their places, and the ids are then
      exactly the old ones and the records' ones, each once when the old
      ones were distinct. */
  lemma {:induction false} IdsAfterSpec(ids: seq<int>, recs: seq<OrderRecord>)
    ensures var after := IdsAfter(ids, recs);
      |ids| <= |after| && after[..|ids|] == ids &&
      (forall x :: x in after <==> x in ids || x in RecordIds(recs)) &&
      ((forall p, q :: 0 <= p < q < |ids| ==> ids[p] != ids[q]) ==>
         forall p, q :: 0 <= p < q < |after| ==> after[p] != after[q])
  {
    if recs != [] {
      var n := |recs| - 1;
      IdsAfterSpec(ids, recs[..n]);
      var before := IdsAfter(ids, recs[..n]);
      if recs[n].orderId !in before {
        assert (before + [recs[n].orderId])[..|ids|] == before[..|ids|];
      }
    }
  }

  /** Orders 1 and then 2 loaded into an empty registry are listed as 1, 2;
      loaded again as 2 and then 1 over that registry, they keep that order. */
  lemma IdsAfterExample()
    ensures IdsAfter([], [OrderRecord(1, Pending, []), OrderRecord(2, Completed, [])]) == [1, 2]
    ensures IdsAfter([1, 2], [OrderRecord(2, Pending, []), OrderRecord(1, Completed, [])]) == [1, 2]
  {
    var recs := [OrderRecord(1, Pending, []), OrderRecord(2, Completed, [])];
    assert recs[..1] == [recs[0]] && [recs[0]][..0] == [];
    var again := [OrderRecord(2, Pending, []), OrderRecord(1, Completed, [])];
    assert again[..1] == [again[0]] && [again[0]][..0] == [];
  }

  /** The first `j + 1` records are loadable when the first `j` are and record `j` is. */
  lemma LoadablePrefix(recs: seq<OrderRecord>, j: nat)
    requires j < |recs| && OrdersLoadable(recs[..j])
    requires recs[j].orderId >= 1 && LinesLoadable(recs[j].lines)
    ensures OrdersLoadable(recs[..j + 1])
  {
    assert forall k :: 0 <= k < j ==> recs[..j + 1][k] == recs[..j][k];
  }

  /** Every id the records carry is carried by a record that is the last with it. */
  lemma {:induction false} LastOfId(recs: seq<OrderRecord>, id: int) returns (j: nat)
    requires id in RecordIds(recs)
    ensures LastWithId(recs, j) && recs[j].orderId == id
  {
    var n := |recs| - 1;
    if recs[n].orderId == id {
      j := n;
    } else {
      j := LastOfId(recs[..n], id);
      assert recs[..n][j] == recs[j];
    }
  }

  /** A record that is the last with its id among the first `j + 1` records
      is record `j` itself, or is the last with its id among the first `j`
      and carries another id than record `j`. */
  lemma LastWithIdPrefix(recs: seq<OrderRecord>, j: nat, j': int)
    requires j < |recs| && LastWithId(recs[..j + 1], j') && j' != j
    ensures LastWithId(recs[..j], j') && recs[j'].orderId != recs[j].orderId
  {
    assert recs[..j + 1][j] == recs[j];
  }
}
