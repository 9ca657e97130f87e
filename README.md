# Restaurant management: a verified model

This project models the domain core of a small restaurant management program
in Dafny. The core has five classes:

- a `MenuItem` with a name, price, category, description and availability flag;
- an `OrderItem` line that refers to a menu item and holds a quantity;
- an `Order` with an id, a status, and lines keyed by the item's catalog key;
- a `Menu` catalog of items keyed the same way;
- a `Restaurant` that owns a menu, a registry of orders keyed by order id, and
  the counter that issues new order ids.

The restaurant also rebuilds the menu and the orders from saved records.

The catalog key of an item is `(name.strip().lower(), category)`. Two names
that differ only in case or in surrounding whitespace name the same item, and
one name under two categories names two items.

Each class keeps its Python form:

- it is a Dafny `class` whose methods update its fields in place;
- a Python dictionary is a `seq` field holding the entries in insertion order,
  with distinct keys;
- a raised exception is a returned `Outcome` (`Pass` / `Fail(error)`) or
  `Result` (`Ok(value)` / `Err(error)`), with one case per exception class;
- constructors that may raise are static `Create` methods, next to
  constructors whose `requires` is the guard.

Every operation is tied to a specification on values:

- `Order` methods are specified through the pure functions `AddItemStep`,
  `ChangeQuantityStep` and `RemoveItemStep` on `Line` values, and the
  merge-on-add and total lemmas are proved about those functions.
- The restaurant keeps a footprint invariant: order ids are distinct, every
  order is valid, and no line object is shared between orders.
- Every restaurant operation states which orders and lines it may change and
  that all others stay as they were.
- `OrderItem.Subtotal` and `Order.Total` read the referenced item's price at
  the time of the call, so a later price update shows in every order that
  refers to that item.

Modules:

| file | module | models |
|---|---|---|
| errors.dfy | Errors | models/exceptions.py, plus the Option, Result and Outcome wrappers |
| enums.dfy | Enums | models/enums.py |
| keys.dfy | Keys | `strip`, `lower`, substring search and the catalog key |
| menu_item.dfy | MenuItems | models/menu_item.py |
| order_item.dfy | OrderItems | models/order_item.py |
| order.dfy | Orders | models/order.py |
| menu.dfy | Menus | models/menu.py |
| registry.dfy | Registries | the order dictionary of models/restaurant.py, and revenue |
| records.dfy | Records | the decoded records `load_data` reads |
| restaurant.dfy | Restaurants | models/restaurant.py |

## Model

| member | source | states |
|---|---|---|
| Enums.ParseCategory | models/enums.py:3-7 | a label parses to the category carrying that label, and fails exactly when no category carries it |
| Enums.ParseStatus | models/enums.py:10-13 | a label parses to the status carrying that label, and fails exactly when no status carries it |
| Enums.CategoryLabelRoundTrip | models/enums.py:3-7 | parsing a category's label gives the category back |
| Enums.StatusLabelRoundTrip | models/enums.py:10-13 | parsing a status's label gives the status back |
| Keys.TrimStartSpec | models/menu.py:9-10 | `lstrip` returns a suffix that does not start with whitespace, and everything it cut off is whitespace |
| Keys.TrimEndSpec | models/menu.py:9-10 | `rstrip` returns a prefix that does not end with whitespace, and everything it cut off is whitespace |
| Keys.StripSpec | models/menu.py:9-10 | a stripped string is no longer than the input and neither starts nor ends with whitespace |
| Keys.StripIdempotent | models/menu_item.py:22-28 | stripping an already stripped string changes nothing |
| Keys.LowerSpec | models/menu.py:9-10 | `lower` keeps the length and maps each character on its own |
| Keys.TrimStartLower | models/menu.py:9-10 | left-trimming and lower-casing commute |
| Keys.TrimEndLower | models/menu.py:9-10 | right-trimming and lower-casing commute |
| Keys.LowerIdempotent | models/menu.py:9-10 | lower-casing twice equals lower-casing once |
| Keys.NormalizeIdempotent | models/menu.py:9-10 | normalising a normalised name changes nothing |
| Keys.NormalizeSpec | models/menu.py:9-10 | the normalised name is the input with its leading and trailing whitespace cut off and every upper-case letter lowered: it is no longer than the input, neither starts nor ends with whitespace, and holds no upper-case letter |
| Keys.MakeKeyNormal | models/menu.py:12-14 | a key's name has no surrounding whitespace, no upper-case letter, and is its own normal form |
| Keys.IcedTeaKey | models/order.py:23-31 | " Iced Tea " and "iced tea" give the same Drink key |
| Keys.CategoryDistinguishesKeys | models/order.py:26-28 | one name under two different categories gives two different keys |
| Keys.DistinctRemove | models/menu.py:22-26 | deleting one entry keeps the keys distinct and removes that key entirely |
| Keys.IndexOf | models/menu.py:16-20 | the dictionary lookup finds the first position holding the key, and fails exactly when the key is absent |
| Keys.IndexOfDistinct | models/menu.py:28-32 | with distinct keys, looking up a stored key finds its own position |
| Keys.IsInfixFromOccurrence | models/menu.py:61-70 | a pattern occurring at some position is a substring |
| Keys.OccurrenceFromIsInfix | models/menu.py:61-70 | a substring occurs at a position the lemma returns |
| Keys.IsInfixAt | models/menu.py:61-70 | `p in s` holds exactly when `p` occurs at some position of `s` |
| Keys.BlankKeywordMatchesAll | models/menu.py:61-70 | an all-whitespace keyword normalises to the empty string, which occurs in every string |
| Menus.Find | models/menu.py:28-32 | the lookup is None exactly when the key is absent; otherwise it returns a stored item with that key |
| Menus.FindAt | models/menu.py:28-32 | with distinct keys, looking up an item's key finds that very item |
| Menus.FindAfterAppend | models/menu.py:16-20 | appending under a new key makes that item the one found under the key; every other key finds what it found before |
| Menus.FindAfterRemove | models/menu.py:22-26 | deleting an entry makes its key absent; every other key finds what it found before |
| Menus.KeysGrow | models/restaurant.py:169-170 | appending items keeps every key that was present |
| Menus.ByCategory | models/menu.py:34-43 | the result holds exactly the items of the category |
| Menus.ByCategoryAppend | models/menu.py:34-43 | filtering by category keeps insertion order (it distributes over concatenation) |
| Menus.Matching | models/menu.py:61-70 | the result holds exactly the items whose lower-cased name or description contains the keyword |
| Menus.MatchingAppend | models/menu.py:61-70 | search results keep insertion order (search distributes over concatenation) |
| Menus.BlankSearchFindsAll | models/menu.py:61-70 | an all-whitespace keyword finds every item, in order |
| Menus.Menu.constructor | models/menu.py:6-7 | a new menu is empty and valid |
| Menus.Menu.GetItem | models/menu.py:28-32 | never fails; None exactly when the normalised key is absent, otherwise the stored item with that key |
| Menus.Menu.AddItem | models/menu.py:16-20 | a taken key fails with MenuItemExistsError and keeps the first item; otherwise the item is appended and every name with the same normal form finds it under its category; keys stay distinct |
| Menus.Menu.RemoveItem | models/menu.py:22-26 | an absent key fails with MenuItemNotFoundError and changes nothing; otherwise exactly that entry is deleted in place, its key is then absent, and every other key finds what it found before |
| Menus.Menu.ListItems | models/menu.py:34-43 | with no category, every item in insertion order; with a category, the items of that category in insertion order |
| Menus.Menu.UpdateItemPrice | models/menu.py:45-51 | an absent key is not found; otherwise the item's own price rule decides; only the addressed item's price can change, and no other field of any item changes |
| Menus.Menu.SetItemAvailability | models/menu.py:53-59 | an absent key is not found; otherwise only the addressed item's flag is set, and no other field of any item changes |
| Menus.Menu.Search | models/menu.py:61-70 | the items, in insertion order, whose lower-cased name or description contains the stripped, lower-cased keyword |
| MenuItems.MenuItem.constructor | models/menu_item.py:5-10 | every field is stored as given, without validation |
| MenuItems.MenuItem.WithDefaults | models/menu_item.py:5-10 | the constructor defaults give an empty description and an available item |
| MenuItems.MenuItem.UpdatePrice | models/menu_item.py:12-15 | a price not above 0 fails with MenuValidationError and keeps the old price; otherwise the price becomes the new one; no other field can change |
| MenuItems.MenuItem.SetAvailability | models/menu_item.py:17-20 | the flag becomes the given value and nothing else changes |
| MenuItems.MenuItem.UpdateDescription | models/menu_item.py:22-28 | None clears the description; a string is stored stripped, so stripping the stored description again changes nothing |
| OrderItems.OrderItem.constructor | models/order_item.py:5-16 | a quantity of at least 1 gives a valid line referring to the item |
| OrderItems.OrderItem.Create | models/order_item.py:5-16 | a quantity below 1 fails with MenuValidationError; otherwise a new valid line holds the item reference and the quantity |
| OrderItems.OrderItem.UpdateQuantity | models/order_item.py:18-25 | a quantity below 1 fails with MenuValidationError and changes nothing; otherwise the quantity becomes exactly the new one; the invariant `quantity >= 1` is kept |
| OrderItems.OrderItem.Subtotal | models/order_item.py:27-28 | the price of the line, read through the item at the time of the call: not negative for a non-negative price, at least one unit's price for a valid line, and 0 exactly when the price or the quantity is 0 |
| Orders.QuantityOfLine | models/order.py:47-52 | with distinct keys, the quantity held for a line's key is that line's quantity |
| Orders.AddLineQuantities | models/order.py:47-54 | adding q units of an item adds q to its key's quantity and leaves every other key's quantity unchanged |
| Orders.AddLineTwice | models/order.py:47-54 | adding the same key twice equals adding the summed quantity once |
| Orders.AddLineAt | models/order.py:47-52 | a present key gets q more units on its own line, in place, and the line keys stay as they were |
| Orders.AddLineNew | models/order.py:53-54 | a new key is appended as one line of exactly q units |
| Orders.MergeOnAddExample | models/order.py:33-54 | adding an item twice, 2 and then 3 units, gives one line of 5 units |
| Orders.SameNameTwoCategories | models/order.py:23-54 | one name under two categories gives two lines |
| Orders.SubtotalRaise | models/order_item.py:27-28 | q more units raise a line's subtotal by q times the item's current price |
| Orders.TotalOfAddLine | models/order.py:92-96 | adding q units raises the total by q times the item's current price |
| Orders.TotalOfReplace | models/order.py:92-96 | replacing one line changes the total by the difference of the two subtotals |
| Orders.QuantityOfReplace | models/order.py:56-72 | replacing one line changes a key's quantity by what the old and the new line hold of it |
| Orders.RemoveLine | models/order.py:74-83 | deleting a line deletes exactly its key from the line keys, keeps the lines well formed, and leaves that key absent |
| Orders.TotalOfRemove | models/order.py:92-96 | deleting a line lowers the total by exactly that line's subtotal |
| Orders.AddItemStep | models/order.py:33-54 | a quantity below 1 fails with MenuValidationError and changes nothing; a present key keeps the line count and key order; a new key appends one line; the lines of other keys stay; well-formed lines stay well formed |
| Orders.AddItemStepItems | models/order.py:33-54 | `add_item` keeps the item object of every existing line (a merge changes only the quantity) and adds at most one line, which refers to the item passed in |
| Orders.AddItemStepQuantities | models/order.py:33-54 | a successful add raises its key's quantity by exactly the quantity added and leaves every other key's quantity unchanged |
| Orders.ChangeQuantityStep | models/order.py:56-72 | the quantity check comes before the key check; an absent key fails with MenuItemNotFoundError; on success the key then holds exactly q units, the keys and other lines are unchanged, and well-formedness is kept |
| Orders.RemoveItemStep | models/order.py:74-83 | an absent key fails with MenuItemNotFoundError and changes nothing; otherwise exactly that line is deleted, the others keep their order, and the key is then absent |
| Orders.DemoTotals | models/order.py:33-96 | the demonstration run's totals: 2 pizzas at 45.00 plus 1 iced tea at 10.00 total 100.00; 3 iced teas make 120.00; after removing the pizza, 30.00 |
| Orders.SumSubtotals | models/order.py:92-96 | the sum of the line objects' live subtotals is the total of their line values |
| Orders.Order.ValidLines | models/order.py:8-20 | the order invariant on line objects is exactly a positive id and well-formed line values |
| Orders.Order.constructor | models/order.py:8-20 | an id of at least 1 gives a valid order with that id and status and no lines |
| Orders.Order.Create | models/order.py:8-20 | an id below 1 fails with MenuValidationError; otherwise a new, valid, empty order |
| Orders.Order.GetItems | models/order.py:86-90 | the line objects in insertion order: no two share a key, and every quantity is at least 1 |
| Orders.Order.Total | models/order.py:92-96 | the total is the sum of the line subtotals at the items' current prices |
| Orders.Order.ItemsGrown | models/order.py:33-54 | when lines are only appended, and the appended ones are new, every line object is old or new |
| Orders.Order.AddItem | models/order.py:33-54 | the lines change exactly as AddItemStep says; old line objects keep their places, and any appended line object is new |
| Orders.Order.ChangeItemQuantity | models/order.py:56-72 | the lines change exactly as ChangeQuantityStep says, in the same line objects |
| Orders.Order.RemoveItem | models/order.py:74-83 | the lines change exactly as RemoveItemStep says, and no line object is added |
| Orders.Order.SetStatus | models/order.py:99-102 | the status becomes the new one, with no transition check |
| Records.MaxIdBounds | models/restaurant.py:173-182 | the running maximum starts at 0, is 0 or one of the ids read, and no id read exceeds it |
| Records.NextIdAbove | models/restaurant.py:201-204 | the counter after a load is at least 1 and above every id read; when an id above 0 was read, it is one past one of them |
| Records.LastWithIdPrefix | models/restaurant.py:176-181 | a later record with the same id replaces an earlier one; a record surviving among the first j + 1 records is record j or survives among the first j |
| Records.LastOfId | models/restaurant.py:176-181 | every id read is carried by a record that no later record overrides |
| Records.KeysOfSnoc | models/restaurant.py:158-170 | one more item record brings exactly its own key |
| Records.KeysOfAppend | models/restaurant.py:158-170 | the keys of two runs of records are the keys of each |
| Records.NewRecordsSnoc | models/restaurant.py:169-170 | resolving one more record adds it exactly when its key is neither on the menu nor carried by an earlier record |
| Records.NewRecordsSingle | models/restaurant.py:188-197 | resolving one record adds it exactly when its key is not on the menu |
| Records.NewRecordsCover | models/restaurant.py:158-170 | after the records are resolved, the menu holds exactly its old keys and the records' keys |
| Records.NewRecordsFrom | models/restaurant.py:169-170 | every record that adds an item is one of the records, with a key not on the menu before |
| Records.NewRecordsDistinct | models/restaurant.py:169-170 | no two added items share a key: a duplicate record is skipped |
| Records.NewRecordsAppend | models/restaurant.py:158-199 | resolving one run of records and then another adds what the first adds, followed by what the second adds against the keys the first left |
| Records.ReferencedHas | models/restaurant.py:184-186 | every line of every order record refers to one of the item records the load resolves |
| Records.LoadCovers | models/restaurant.py:158-199 | after the menu records and then every line's item are resolved, every menu record's key and every line's key is on the menu |
| Records.RecordQuantityAbsent | models/restaurant.py:184-199 | a key no line record carries gets no units |
| Records.FirstKeysNew | models/order.py:33-54 | the keys of lines built by adding the line records in turn, each where it first occurs, are the keys of the records an empty menu would gain from them, so they are distinct and are exactly the records' keys |
| Records.IdsAfterSpec | models/restaurant.py:176-181 | registering the records in turn keeps the old ids in their places, and the ids are then exactly the old ones and the records' ones, each once when the old ones were distinct |
| Records.IdsAfterExample | models/restaurant.py:176-181 | orders 1 and 2 loaded into an empty registry are listed as 1, 2, and reloading them as 2 then 1 keeps that order, since reassigning a dict key keeps its place |
| Registries.OrderIndex | models/restaurant.py:30-34 | the dictionary lookup by id finds the first position holding the id, and fails exactly when the id is not registered |
| Registries.OrderIndexDistinct | models/restaurant.py:30-34 | with distinct ids, looking up an order's id finds its own position |
| Registries.LookupEach | models/restaurant.py:45-49 | with distinct ids, every listed order is the one found under its id |
| Registries.Put | models/restaurant.py:26 | assigning under a registered id keeps its position; a new id is appended; entries under other ids stay |
| Registries.PutElsewhere | models/restaurant.py:26 | registering an order leaves the lookup of every other id unchanged |
| Registries.PutFinds | models/restaurant.py:26 | registering keeps ids distinct and makes the order the one found under its id |
| Registries.IdsBelow | models/restaurant.py:201-204 | when every registered id is one of the ids read and all of those are below the counter, every registered id is below the counter |
| Registries.PutAhead | models/restaurant.py:20-28 | with every id below the counter, an order under the counter's value is appended, and every id is then below the counter plus 1 |
| Registries.WithStatus | models/restaurant.py:51-57 | exactly the registered orders with the given status |
| Registries.RegisterConsistent | models/restaurant.py:181 | registering an order whose line objects belong to no registered order keeps the registry consistent and makes the order the one found under its id |
| Registries.Revenue | models/restaurant.py:119-127 | revenue is the sum of the totals of the orders listed as Completed, so other orders add nothing |
| Registries.WithStatusAppend | models/restaurant.py:51-57 | selecting by status distributes over concatenation, so the selection keeps registration order |
| Restaurants.LoadStep | models/restaurant.py:184-199 | one line record added through `add_item` succeeds exactly when its quantity is at least 1; the lines then hold the records so far: one line per key in the order the keys first occur, and for each key the summed quantities, so repeated records merge into the first line |
| Restaurants.BuiltKeys | models/restaurant.py:158-170 | a menu built from item records holds its old keys and the records' keys, and no other |
| Restaurants.BuiltConcat | models/restaurant.py:158-199 | a menu built from one run of records and then from another is built from both in turn |
| Restaurants.GrowStep | models/restaurant.py:158-199 | resolving one run of records and then another, each against the menu it finds, builds the menu that resolving both in one go builds |
| Restaurants.OrdersMenuStep | models/restaurant.py:172-199 | resolving the items of one more order record extends the menu built from the records before it |
| Restaurants.LoadKeysOnMenu | models/restaurant.py:158-199 | after the load has built the menu, every menu record's key and every line's key is on it |
| Restaurants.LinesOnBuiltMenu | models/restaurant.py:184-197 | after the items of a list of line records are resolved, every line's key is on the menu |
| Restaurants.HeldKeysRecorded | models/restaurant.py:184-199 | every line of an order loaded from a record has a key that some line record carries |
| Restaurants.Restaurant.constructor | models/restaurant.py:10-17 | a name that is not blank is stored stripped; the menu and registry are empty, and the counter is 1 |
| Restaurants.Restaurant.Create | models/restaurant.py:10-17 | a name that is blank once stripped fails with MenuValidationError; otherwise a new restaurant with an empty menu and registry and the counter at 1 |
| Restaurants.Restaurant.GetOrder | models/restaurant.py:30-34 | None exactly when no order is registered under the id; otherwise the registered order with that id |
| Restaurants.Restaurant.RequireOrder | models/restaurant.py:36-43 | an unregistered id fails with MenuValidationError; otherwise the registered order with that id |
| Restaurants.Restaurant.ListOrders | models/restaurant.py:45-49 | every registered order once, each being the order found under its id |
| Restaurants.Restaurant.ListOrdersByStatus | models/restaurant.py:51-57 | exactly the registered orders with the given status |
| Restaurants.Restaurant.GetMenuItemOrFail | models/restaurant.py:59-66 | an absent key fails with MenuItemNotFoundError; otherwise the menu item stored under it |
| Restaurants.Restaurant.TotalRevenue | models/restaurant.py:119-127 | the sum of the live totals of the orders listed as Completed |
| Restaurants.Restaurant.OthersUntouched | models/restaurant.py:68-116 | when only one order and its own line objects change, the line objects of every other order are unchanged |
| Restaurants.Restaurant.OrderChanged | models/restaurant.py:111-116 | changing one order in a way that keeps it valid keeps the registry consistent and every other order's lines |
| Restaurants.Restaurant.LinesChanged | models/restaurant.py:68-108 | changing one order's lines in a way that keeps it valid keeps the restaurant invariant, the lookup of that order, every status and every other order's lines |
| Restaurants.StillOnMenu | models/restaurant.py:158-199 | an item object on the menu stays on it while loading only appends items |
| Restaurants.Restaurant.OthersStayOnMenu | models/restaurant.py:176-199 | when only the order under one id was replaced and the menu only grew by appending, every other order whose lines referred to menu items still does |
| Restaurants.Restaurant.OnMenuKeys | models/restaurant.py:188-199 | when every line of the given orders refers to one of the menu's own items, every line's key is on the menu |
| Restaurants.Restaurant.AddItemToOrder | models/restaurant.py:68-81 | an unknown id fails with MenuValidationError even when the item is also missing; a missing item fails with MenuItemNotFoundError; otherwise the order's lines change exactly as its own `add_item`; every other order keeps its line objects and lines, and every status and the menu stay |
| Restaurants.Restaurant.ChangeOrderItemQuantity | models/restaurant.py:83-95 | the same two failures in the same order; otherwise the lines change exactly as the order's own `change_item_quantity`; every other order keeps its line objects and lines, and no status or menu item changes |
| Restaurants.Restaurant.RemoveItemFromOrder | models/restaurant.py:97-108 | the same two failures in the same order; otherwise the lines change exactly as the order's own `remove_item`; every other order keeps its line objects and lines, and no status or menu item changes |
| Restaurants.Restaurant.SetOrderStatus | models/restaurant.py:111-116 | an unknown id fails with MenuValidationError; otherwise only that order's status changes, to the new one; every order keeps its line objects and its lines |
| Restaurants.Restaurant.Register | models/restaurant.py:26-27 | the order is stored under its id (replacing any order there) and found there; every other id finds what it found before, and the invariant is kept |
| Restaurants.Restaurant.CreateOrder | models/restaurant.py:20-28 | a new Pending order with no lines under the old counter value, registered under it; the counter grows by exactly 1; while every id is below the counter, the order is appended and the counter stays ahead |
| Restaurants.Restaurant.ResolveItem | models/restaurant.py:188-197 | an item already under the record's key is returned and the menu stays as it was; otherwise a new item with the record's name, price, category, description and flag is appended and returned; either way it is then the item found under the key |
| Restaurants.Restaurant.AddLoadedLine | models/restaurant.py:184-199 | one line record added to the order being loaded: it succeeds exactly when its quantity is at least 1, and then the lines hold what the records so far ask for; the menu gains a new item built from the line's item record exactly when its key was not on the menu; old line objects keep their places and any new one is fresh; every line still refers to one of the menu's own item objects (the one `get_item` returned, or the one just added) |
| Restaurants.Restaurant.LoadLines | models/restaurant.py:184-199 | the lines of one order record: succeeds exactly when every quantity is at least 1; the order then has one line per key, in the order the keys first occur in the records, holding the summed quantities of the records for that key; every line's key is on the menu, every line refers to one of the menu's own item objects, and the menu is the old one followed by a fresh item for the first line record with each key not on it |
| Restaurants.Restaurant.LoadOrder | models/restaurant.py:176-199 | an id below 1 fails before anything changes; otherwise a new order is registered under the id, replacing any order there, even when a line fails; on success it holds the record's status and its lines, one per key in first-occurrence order with the summed quantities, and the menu gains a fresh item for each new key its lines bring; every line of the order under the id refers to one of the menu's own item objects; other ids are untouched, and their lines keep referring to menu items |
| Restaurants.Restaurant.RegisterLoaded | models/restaurant.py:176-181 | a loaded order is stored by `Put` under its id and found there, it still holds what its record asks for, every other id keeps its order, and its lines still refer to the menu's own items |
| Restaurants.Restaurant.LoadMenu | models/restaurant.py:158-170 | the menu becomes the old menu followed by one fresh item, carrying the record's fields, for the first record with each key not already on it; a record whose key is taken is skipped; every record's key is then on the menu |
| Restaurants.Restaurant.LoadRecordAt | models/restaurant.py:176-199 | loading record j keeps the registered ids in place and appends the record's id when it is new; it keeps, for every record that is still the last with its id, the order it loaded; the menu gains a fresh item for each new key the record's lines bring; the order under the record's id has its lines on the menu's own items, and every other order whose lines were on the menu still has them there |
| Restaurants.Restaurant.SetCounter | models/restaurant.py:201-204 | the counter takes the given value and the invariant is kept |
| Restaurants.Restaurant.LoadOrders | models/restaurant.py:172-199 | succeeds exactly when every record has an id of at least 1 and only lines of at least one unit; then the registered ids are the old ones in place followed by each new record id in the order it first appears, the last record with each id is what the order under that id holds (its status, and its lines in first-occurrence order of their keys), every line of those orders refers to one of the menu's own item objects, the menu gains a fresh item for the first line with each new key, and the maximum id read is returned; ids no record carries keep their orders |
| Restaurants.Restaurant.LoadRecords | models/restaurant.py:152-204 | the menu becomes the old menu followed by a fresh item for the first record, item or line, with each key not already on it, so every item record's key is on it; the load succeeds exactly when all order records are loadable; then the registered ids are the old ones in place followed by each new record id in the order it first appears, the last record with each id is what the order under that id holds (its status, and its lines in first-occurrence order of their keys), every line of those orders refers to one of the menu's own item objects, and the counter is the largest id read plus 1, or 1; on failure the counter is unchanged; ids no record carries keep their orders |
| Restaurants.Restaurant.LoadData | models/restaurant.py:152-204 | everything LoadRecords states, including the order of the registered ids and of each loaded order's lines; loaded into an empty registry, every registered id is below the counter |

## Left out

- File I/O and JSON: utils/json_store.py is not part of this model. `load_data` takes decoded `ItemRecord`/`OrderRecord` values. A missing file (the store returns None) and a file holding an empty list both give no records. A file that is not valid JSON, a zero-byte file included, makes `json.load` raise; that error is not modelled.
- Label parsing during a load: records carry already parsed categories and statuses. `ParseCategory`/`ParseStatus` model the `Category(...)`/`OrderStatus(...)` lookups, but a bad label or a missing field in a file is not modelled.
- `save_data`, every `to_dict`, and every `__str__`/`__repr__` (including the grouped and sorted menu display) are left out. They only render or serialise.
- main.py is not modelled as a program. `Orders.DemoTotals` covers only the order totals its script prints after each change. The script's final status change to Completed and its revenue report are not modelled as a scenario; revenue in general is `Registries.Revenue`.
- Prices are integers in cents, not floats, so float rounding is not modelled.
- The `isinstance` checks are not modelled: Dafny's types enforce them. `update_description` takes an `Option<string>`, so its non-string case cannot occur.
- `strip` and `lower` are ASCII only. Unicode whitespace and case mappings are not modelled.
- A menu item's name and category are constants. No operation of the program reassigns them, and its stored key is computed once from them.
- Exception messages are not modelled; each exception class is one error value.
- Default arguments are not modelled: every caller passes the quantity of `Order.add_item` (models/order.py:33) and of `add_item_to_order` (models/restaurant.py:73), whose default is 1, and the status of the `Order` constructor (models/order.py:8), whose default is Pending. `CreateOrder` passes Pending, as the program does.
- Keys.Normalize and Keys.MakeKey carry no postcondition of their own: their properties are the lemmas `Keys.NormalizeSpec`, `Keys.NormalizeIdempotent` and `Keys.MakeKeyNormal`. As postconditions they would be in scope of every proof that mentions a key.
- Restaurants.Restaurant.LoadOrder: a new order takes its lines before it is registered, where the program registers it first. The end state is the same, including after a line fails part way.
- Restaurants.Restaurant.LoadData: a failed load stops at the first refused record, as the exception does. On failure the contract states only that the counter is unchanged, the menu only grew, and ids no record carries keep their orders. It does not state which records before the refused one were registered.
- Restaurants.Restaurant.LoadData: the counter is reset to the largest loaded id plus 1 even when orders were registered before the load. The contract claims that every id is below the counter only for a load into an empty registry, as in the program's own start-up sequence.
