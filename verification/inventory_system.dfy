/**
 * The inventory store of `inventory_system.py`: a two-level insertion-ordered mapping
 * category name -> item name -> item record, and the operations on it.
 *
 * Both levels are association lists (see `AssocList`). Every operation here is a pure
 * function of its inputs: where the source mutates a dictionary in place, the model
 * returns the new value.
 */
module InventorySystem {
  import opened Wrappers
  import opened AssocList

  /** An item record: the dictionary `{"name": ..., "price": ..., "quantity": ...}`. */
  datatype Item = Item(name: string, price: real, quantity: int)

  /** Item name -> item record. */
  type Category = seq<(string, Item)>

  /** Category name -> category. */
  type Inventory = seq<(string, Category)>

  /**
   * The fields an update may overwrite; a field that is `None` is not in the update
   * dictionary and keeps its old value.
   */
  datatype Patch = Patch(name: Option<string>, price: Option<real>, quantity: Option<int>)

  /** The invariant of the nested dictionaries: unique keys at both levels. */
  ghost predicate WellFormed(inv: Inventory) {
    && UniqueKeys(inv)
    && forall i :: 0 <= i < |inv| ==> UniqueKeys(inv[i].1)
  }

  /** The starter inventory: two categories with sample items. */
  function CreateInventory(): (inv: Inventory)
    ensures WellFormed(inv)
    ensures Keys(inv) == ["Electronics", "Groceries"]
  {
    var electronics := [
      ("Laptop", Item("Laptop", 1000.0, 5)),
      ("Smartphone", Item("Smartphone", 500.0, 10))
    ];
    var groceries := [
      ("Apple", Item("Apple", 0.5, 100)),
      ("Banana", Item("Banana", 0.3, 100)),
      ("Milk", Item("Milk", 2.5, 100))
    ];
    [("Electronics", electronics), ("Groceries", groceries)]
  }

  /** `dict.update` restricted to the three record fields. */
  function ApplyPatch(item: Item, p: Patch): (r: Item)
    ensures p.name.None? ==> r.name == item.name
    ensures p.price.None? ==> r.price == item.price
    ensures p.quantity.None? ==> r.quantity == item.quantity
    ensures p.name.Some? ==> r.name == p.name.value
    ensures p.price.Some? ==> r.price == p.price.value
    ensures p.quantity.Some? ==> r.quantity == p.quantity.value
  {
    Item(p.name.GetOr(item.name), p.price.GetOr(item.price), p.quantity.GetOr(item.quantity))
  }

  /** The category stored under `category`, or the empty category when it is absent. */
  function GetItemsInCategory(inv: Inventory, category: string): (r: Category)
    ensures category !in Keys(inv) ==> r == []
    ensures category in Keys(inv) ==> (category, r) in inv
    ensures category in Keys(inv) ==> Get(inv, category) == Some(r)
  {
    Get(inv, category).GetOr([])
  }

  /** The record stored under `category` and `itemName`, if both keys are present. */
  function ItemAt(inv: Inventory, category: string, itemName: string): Option<Item> {
    Get(GetItemsInCategory(inv, category), itemName)
  }

  /**
   * Patches the record at `category`/`itemName` and reports whether it was found.
   * On a miss the inventory is returned unchanged; on a hit only that record changes and
   * both levels keep their key order.
   */
  function UpdateInventory(inv: Inventory, category: string, itemName: string, p: Patch): (r: (bool, Inventory))
    ensures r.0 <==> ItemAt(inv, category, itemName).Some?
    ensures !r.0 ==> r.1 == inv
    ensures r.0 ==> ItemAt(r.1, category, itemName) == Some(ApplyPatch(ItemAt(inv, category, itemName).value, p))
    ensures forall c, i :: (c, i) != (category, itemName) ==> ItemAt(r.1, c, i) == ItemAt(inv, c, i)
    ensures forall c :: c != category ==> Get(r.1, c) == Get(inv, c)
    ensures Keys(r.1) == Keys(inv)
    ensures forall c :: Keys(GetItemsInCategory(r.1, c)) == Keys(GetItemsInCategory(inv, c))
  {
    match Get(inv, category)
    case None => (false, inv)
    case Some(cat) =>
      match Get(cat, itemName)
      case None => (false, inv)
      case Some(item) =>
        var v := ApplyPatch(item, p);
        PutItemFrame(inv, category, cat, itemName, v);
        (true, Put(inv, category, Put(cat, itemName, v)))
  }

  /**
   * Storing `v` under an existing category and item name changes that record only:
   * every other record and category keeps its value and both levels keep their key order.
   */
  lemma PutItemFrame(inv: Inventory, category: string, cat: Category, itemName: string, v: Item)
    requires Get(inv, category) == Some(cat)
    requires itemName in Keys(cat)
    ensures
      var r := Put(inv, category, Put(cat, itemName, v));
      && ItemAt(r, category, itemName) == Some(v)
      && (forall c, i :: (c, i) != (category, itemName) ==> ItemAt(r, c, i) == ItemAt(inv, c, i))
      && (forall c :: c != category ==> Get(r, c) == Get(inv, c))
      && Keys(r) == Keys(inv)
      && (forall c :: Keys(GetItemsInCategory(r, c)) == Keys(GetItemsInCategory(inv, c)))
  {
    var inner := Put(cat, itemName, v);
    var r := Put(inv, category, inner);
    assert GetItemsInCategory(inv, category) == cat;
    assert GetItemsInCategory(r, category) == inner;
    forall c, i | (c, i) != (category, itemName)
      ensures ItemAt(r, c, i) == ItemAt(inv, c, i)
    {
      if c != category {
        assert GetItemsInCategory(r, c) == GetItemsInCategory(inv, c);
      }
    }
    forall c
      ensures Keys(GetItemsInCategory(r, c)) == Keys(GetItemsInCategory(inv, c))
    {
      if c != category {
        assert GetItemsInCategory(r, c) == GetItemsInCategory(inv, c);
      }
    }
  }

  /** The merge rule for an item held by both inventories: quantities add, the higher price wins. */
  function CombineItems(mine: Item, theirs: Item): (r: Item)
    ensures r.name == mine.name
    ensures r.quantity == mine.quantity + theirs.quantity
    ensures r.price >= mine.price && r.price >= theirs.price
    ensures r.price == mine.price || r.price == theirs.price
  {
    Item(mine.name, if theirs.price > mine.price then theirs.price else mine.price, mine.quantity + theirs.quantity)
  }

  /** The inner loop of the merge: the items of `theirs` folded into `mine`. */
  function MergeCategory(mine: Category, theirs: Category): (r: Category)
    ensures UniqueKeys(mine) ==> UniqueKeys(r)
  {
    Absorb(mine, theirs, CombineItems)
  }

  /** `merge_inventories`: the categories of `inv2` folded into (a copy of) `inv1`. */
  function MergeInventories(inv1: Inventory, inv2: Inventory): (r: Inventory)
    ensures UniqueKeys(inv1) ==> UniqueKeys(r)
  {
    Absorb(inv1, inv2, MergeCategory)
  }

  /** The loop body of the most-expensive scan: a strictly higher price replaces the best so far. */
  function Better(best: Option<Item>, x: Item): (r: Option<Item>)
    ensures r.Some?
    ensures r == Some(x) || r == best
    ensures best.Some? ==> r.value.price >= best.value.price && r.value.price >= x.price
    ensures best.Some? && x.price <= best.value.price ==> r == best
  {
    if best.None? || x.price > best.value.price then Some(x) else best
  }

  /** Position `j` holds a maximal price, and every earlier position a strictly lower one. */
  ghost predicate FirstMaxAt(items: seq<Item>, j: int) {
    && 0 <= j < |items|
    && (forall k :: 0 <= k < |items| ==> items[k].price <= items[j].price)
    && (forall k :: 0 <= k < j ==> items[k].price < items[j].price)
  }

  /** `r` is the earliest item of maximal price, or `None` exactly when there are no items. */
  ghost predicate IsMostExpensive(items: seq<Item>, r: Option<Item>) {
    match r
    case None => |items| == 0
    case Some(x) => exists j :: FirstMaxAt(items, j) && items[j] == x
  }

  /** Applying the loop body to the last item extends `IsMostExpensive` from the other items to all of them. */
  lemma BetterExtends(items: seq<Item>, best: Option<Item>)
    requires |items| > 0
    requires IsMostExpensive(items[..|items| - 1], best)
    ensures IsMostExpensive(items, Better(best, items[|items| - 1]))
  {
    var init, x := items[..|items| - 1], items[|items| - 1];
    assert forall k :: 0 <= k < |init| ==> items[k] == init[k];
    if best.None? {
      assert FirstMaxAt(items, 0);
    } else {
      var j :| FirstMaxAt(init, j) && init[j] == best.value;
      if x.price > best.value.price {
        assert FirstMaxAt(items, |init|);
      } else {
        assert FirstMaxAt(items, j);
      }
    }
  }

  /** The scan of `find_most_expensive_item` over a flat list of records, in order. */
  function MostExpensive(items: seq<Item>): (r: Option<Item>)
    ensures IsMostExpensive(items, r)
    decreases |items|
  {
    if |items| == 0 then None
    else
      var best := MostExpensive(items[..|items| - 1]);
      BetterExtends(items, best);
      Better(best, items[|items| - 1])
  }

  /** `view_all_items`: every record, category by category, in key order. */
  function ViewAllItems(inv: Inventory): (r: seq<Item>)
    ensures forall x :: x in r <==> exists ci :: 0 <= ci < |inv| && x in Values(inv[ci].1)
  {
    if |inv| == 0 then [] else Values(inv[0].1) + ViewAllItems(inv[1..])
  }

  /** The (category, item name) pairs of one category. */
  function PairsOf(category: string, cat: Category): (r: seq<(string, string)>)
    ensures |r| == |cat|
    ensures forall i :: 0 <= i < |cat| ==> r[i] == (category, cat[i].0)
  {
    seq(|cat|, i requires 0 <= i < |cat| => (category, cat[i].0))
  }

  /** `view_category_item_pairs`: one (category, item name) pair per record, in the same order. */
  function ViewCategoryItemPairs(inv: Inventory): (r: seq<(string, string)>)
    ensures |r| == |ViewAllItems(inv)|
  {
    if |inv| == 0 then [] else PairsOf(inv[0].0, inv[0].1) + ViewCategoryItemPairs(inv[1..])
  }

  /** `view_categories`: the category names in order. */
  function ViewCategories(inv: Inventory): (r: seq<string>)
    ensures |r| == |inv|
    ensures forall i :: 0 <= i < |inv| ==> r[i] == inv[i].0
  {
    Keys(inv)
  }

  /** `find_most_expensive_item`: the earliest record of maximal price in category-then-item order. */
  function FindMostExpensiveItem(inv: Inventory): (r: Option<Item>)
    ensures IsMostExpensive(ViewAllItems(inv), r)
  {
    MostExpensive(ViewAllItems(inv))
  }

  /** The category holds `itemName` with a positive quantity. */
  predicate InStock(cat: Category, itemName: string)
    ensures UniqueKeys(cat) ==>
      (InStock(cat, itemName) <==> exists i :: 0 <= i < |cat| && cat[i].0 == itemName && cat[i].1.quantity > 0)
  {
    match Get(cat, itemName)
    case Some(item) => item.quantity > 0
    case None => false
  }

  /** Category `j` is the first whose `itemName` record is in stock. */
  ghost predicate FirstInStockAt(inv: Inventory, itemName: string, j: int) {
    && 0 <= j < |inv|
    && InStock(inv[j].1, itemName)
    && forall k :: 0 <= k < j ==> !InStock(inv[k].1, itemName)
  }

  /** `check_item_in_stock`: the `itemName` record of the first category holding it in stock. */
  function CheckItemInStock(inv: Inventory, itemName: string): (r: Option<Item>)
    ensures r.None? <==> forall j :: 0 <= j < |inv| ==> !InStock(inv[j].1, itemName)
    ensures r.Some? ==> exists j :: FirstInStockAt(inv, itemName, j) && Get(inv[j].1, itemName) == r
    decreases |inv|
  {
    if |inv| == 0 then None
    else if InStock(inv[0].1, itemName) then
      assert FirstInStockAt(inv, itemName, 0);
      Get(inv[0].1, itemName)
    else
      var r := CheckItemInStock(inv[1..], itemName);
      InStockShift(inv, itemName, r);
      r
  }

  /** Skipping a first category that does not hold the item in stock shifts the answer by one. */
  lemma InStockShift(inv: Inventory, itemName: string, r: Option<Item>)
    requires |inv| > 0 && !InStock(inv[0].1, itemName)
    requires r.None? <==> forall j :: 0 <= j < |inv| - 1 ==> !InStock(inv[1..][j].1, itemName)
    requires r.Some? ==> exists j :: FirstInStockAt(inv[1..], itemName, j) && Get(inv[1..][j].1, itemName) == r
    ensures r.None? <==> forall j :: 0 <= j < |inv| ==> !InStock(inv[j].1, itemName)
    ensures r.Some? ==> exists j :: FirstInStockAt(inv, itemName, j) && Get(inv[j].1, itemName) == r
  {
    if r.Some? {
      var j :| FirstInStockAt(inv[1..], itemName, j) && Get(inv[1..][j].1, itemName) == r;
      assert inv[1..][j] == inv[j + 1];
      forall k | 0 <= k < j + 1
        ensures !InStock(inv[k].1, itemName)
      {
        if k > 0 {
          assert inv[1..][k - 1] == inv[k];
        }
      }
      assert FirstInStockAt(inv, itemName, j + 1);
    } else {
      forall j | 0 <= j < |inv|
        ensures !InStock(inv[j].1, itemName)
      {
        if j > 0 {
          assert inv[1..][j - 1] == inv[j];
        }
      }
    }
  }

  /** `copy_inventory`: with value semantics, deep and shallow copies both equal the original. */
  function CopyInventory(inv: Inventory, deep: bool): (r: Inventory)
    ensures r == inv
  {
    inv
  }
}
