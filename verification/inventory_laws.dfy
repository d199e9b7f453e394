/**
 * Properties relating the operations of `InventorySystem`: what a merge holds under each
 * key and in which order, what update keeps, how the views line up, and the scenario of
 * the starter inventory.
 */
module InventoryLaws {
  import opened Wrappers
  import opened AssocList
  import opened InventorySystem

  /** Every category of a well-formed inventory has unique item names, absent ones included. */
  lemma CategoryUnique(inv: Inventory, c: string)
    requires WellFormed(inv)
    ensures UniqueKeys(GetItemsInCategory(inv, c))
  {
  }

  /** Well-formedness follows from unique category names and unique item names under every lookup. */
  lemma WellFormedByLookup(inv: Inventory)
    requires UniqueKeys(inv)
    requires forall c :: UniqueKeys(GetItemsInCategory(inv, c))
    ensures WellFormed(inv)
  {
    forall n | 0 <= n < |inv|
      ensures UniqueKeys(inv[n].1)
    {
      GetAt(inv, n);
      assert GetItemsInCategory(inv, inv[n].0) == inv[n].1;
    }
  }

  /** A successful or failed update keeps both levels free of duplicate keys. */
  lemma UpdateKeepsWellFormed(inv: Inventory, category: string, itemName: string, p: Patch)
    requires WellFormed(inv)
    ensures WellFormed(UpdateInventory(inv, category, itemName, p).1)
  {
    var r := UpdateInventory(inv, category, itemName, p);
    if r.0 {
      forall c
        ensures UniqueKeys(GetItemsInCategory(r.1, c))
      {
        CategoryUnique(inv, c);
        if c == category {
          var cat := GetItemsInCategory(inv, category);
          assert GetItemsInCategory(r.1, c) == Put(cat, itemName, ApplyPatch(Get(cat, itemName).value, p));
        } else {
          assert GetItemsInCategory(r.1, c) == GetItemsInCategory(inv, c);
        }
      }
      WellFormedByLookup(r.1);
    }
  }

  /** Within one category, merging joins the two records of each item name. */
  lemma MergeCategoryGet(mine: Category, theirs: Category, i: string)
    requires UniqueKeys(theirs)
    ensures Get(MergeCategory(mine, theirs), i) == Joined(Get(mine, i), Get(theirs, i), CombineItems)
  {
    AbsorbGet(mine, theirs, CombineItems, i);
  }

  /**
   * The record a merge holds under a category and item name: the combined record when both
   * inputs hold it, otherwise the record of whichever input holds it.
   */
  lemma MergeItemAt(a: Inventory, b: Inventory, c: string, i: string)
    requires WellFormed(b)
    ensures ItemAt(MergeInventories(a, b), c, i) == Joined(ItemAt(a, c, i), ItemAt(b, c, i), CombineItems)
  {
    AbsorbGet(a, b, MergeCategory, c);
    if Get(a, c).Some? && Get(b, c).Some? {
      CategoryUnique(b, c);
      MergeCategoryGet(Get(a, c).value, Get(b, c).value, i);
    }
  }

  /** For an item held by both inputs, the merged quantity and price do not depend on argument order. */
  lemma MergeCommutes(a: Inventory, b: Inventory, c: string, i: string)
    requires WellFormed(a) && WellFormed(b)
    requires ItemAt(a, c, i).Some? && ItemAt(b, c, i).Some?
    ensures ItemAt(MergeInventories(a, b), c, i).Some?
    ensures ItemAt(MergeInventories(b, a), c, i).Some?
    ensures ItemAt(MergeInventories(a, b), c, i).value.quantity
         == ItemAt(MergeInventories(b, a), c, i).value.quantity
            == ItemAt(a, c, i).value.quantity + ItemAt(b, c, i).value.quantity
    ensures ItemAt(MergeInventories(a, b), c, i).value.price
         == ItemAt(MergeInventories(b, a), c, i).value.price
  {
    MergeItemAt(a, b, c, i);
    MergeItemAt(b, a, c, i);
  }

  /** Merging keeps both levels free of duplicate keys. */
  lemma MergeKeepsWellFormed(a: Inventory, b: Inventory)
    requires WellFormed(a) && WellFormed(b)
    ensures WellFormed(MergeInventories(a, b))
  {
    var m := MergeInventories(a, b);
    forall c
      ensures UniqueKeys(GetItemsInCategory(m, c))
    {
      AbsorbGet(a, b, MergeCategory, c);
      CategoryUnique(a, c);
      CategoryUnique(b, c);
    }
    WellFormedByLookup(m);
  }

  /** The merged category names: those of `a` in order, then the new ones of `b` in `b`'s order. */
  lemma MergeCategoryOrder(a: Inventory, b: Inventory)
    requires UniqueKeys(b)
    ensures ViewCategories(MergeInventories(a, b)) == ViewCategories(a) + Fresh(ViewCategories(b), ViewCategories(a))
  {
    AbsorbKeys(a, b, MergeCategory);
  }

  /** Within each category the merged item names follow the same rule: `a`'s first, then `b`'s new ones. */
  lemma MergeItemOrder(a: Inventory, b: Inventory, c: string)
    requires WellFormed(b)
    ensures Keys(GetItemsInCategory(MergeInventories(a, b), c))
         == Keys(GetItemsInCategory(a, c))
            + Fresh(Keys(GetItemsInCategory(b, c)), Keys(GetItemsInCategory(a, c)))
  {
    AbsorbGet(a, b, MergeCategory, c);
    var x, y := GetItemsInCategory(a, c), GetItemsInCategory(b, c);
    if Get(a, c).Some? && Get(b, c).Some? {
      CategoryUnique(b, c);
      AbsorbKeys(x, y, CombineItems);
    } else if Get(b, c).Some? {
      FreshNothingSeen(Keys(y));
    }
  }

  /** The number of records in the categories before position `ci`. */
  function Offset(inv: Inventory, ci: nat): nat
    requires ci <= |inv|
  {
    |ViewAllItems(inv[..ci])|
  }

  /** Appending a category appends its records to the flat view. */
  lemma {:induction false} ViewAllItemsAppend(inv: Inventory, c: (string, Category))
    ensures ViewAllItems(inv + [c]) == ViewAllItems(inv) + Values(c.1)
    decreases |inv|
  {
    if |inv| > 0 {
      assert (inv + [c])[1..] == inv[1..] + [c];
      ViewAllItemsAppend(inv[1..], c);
    } else {
      assert inv + [c] == [c];
    }
  }

  /** Each category's records sit right after those of the categories before it. */
  lemma OffsetStep(inv: Inventory, ci: nat)
    requires ci < |inv|
    ensures Offset(inv, ci + 1) == Offset(inv, ci) + |inv[ci].1|
    ensures Offset(inv, |inv|) == |ViewAllItems(inv)|
  {
    assert inv[..ci + 1] == inv[..ci] + [inv[ci]];
    ViewAllItemsAppend(inv[..ci], inv[ci]);
    assert inv[..|inv|] == inv;
  }

  /**
   * Record `ii` of category `ci` is entry `Offset(inv, ci) + ii` of both flat views: the
   * views list records in category-then-item order and name the same record at each position.
   */
  lemma {:induction false} ViewPositions(inv: Inventory, ci: nat, ii: nat)
    requires ci < |inv| && ii < |inv[ci].1|
    ensures Offset(inv, ci) + ii < |ViewAllItems(inv)| == |ViewCategoryItemPairs(inv)|
    ensures ViewAllItems(inv)[Offset(inv, ci) + ii] == inv[ci].1[ii].1
    ensures ViewCategoryItemPairs(inv)[Offset(inv, ci) + ii] == (inv[ci].0, inv[ci].1[ii].0)
    decreases ci
  {
    var head := |inv[0].1|;
    if ci == 0 {
      assert inv[..0] == [];
    } else {
      ViewPositions(inv[1..], ci - 1, ii);
      assert inv[..ci][1..] == inv[1..][..ci - 1];
      assert Offset(inv, ci) == head + Offset(inv[1..], ci - 1);
    }
  }

  /** In a well-formed inventory, the i-th pair names the category and key under which the i-th record is stored. */
  lemma {:induction false} PairsNameItems(inv: Inventory, n: nat)
    requires WellFormed(inv)
    requires n < |ViewCategoryItemPairs(inv)|
    ensures n < |ViewAllItems(inv)|
    ensures ItemAt(inv, ViewCategoryItemPairs(inv)[n].0, ViewCategoryItemPairs(inv)[n].1) == Some(ViewAllItems(inv)[n])
    decreases |inv|
  {
    var cat := inv[0].1;
    if n < |cat| {
      assert GetItemsInCategory(inv, inv[0].0) == cat;
      GetAt(cat, n);
    } else {
      var tail := inv[1..];
      assert WellFormed(tail) by {
        UniqueTail(inv);
        assert forall j :: 0 <= j < |tail| ==> tail[j] == inv[j + 1];
      }
      PairsNameItems(tail, n - |cat|);
      var (c, k) := ViewCategoryItemPairs(tail)[n - |cat|];
      assert c in Keys(tail);
      HeadKeyNotInTail(inv);
      assert GetItemsInCategory(inv, c) == GetItemsInCategory(tail, c);
    }
  }

  /** The specification of the most-expensive scan admits exactly one answer. */
  lemma MostExpensiveUnique(items: seq<Item>, r1: Option<Item>, r2: Option<Item>)
    requires IsMostExpensive(items, r1) && IsMostExpensive(items, r2)
    ensures r1 == r2
  {
  }

  /** The scenario of the starter inventory: category order, most expensive item, and a merge with itself. */
  lemma StarterScenario()
    ensures ViewCategories(CreateInventory()) == ["Electronics", "Groceries"]
    ensures FindMostExpensiveItem(CreateInventory()) == Some(Item("Laptop", 1000.0, 5))
    ensures ItemAt(MergeInventories(CreateInventory(), CreateInventory()), "Electronics", "Laptop")
         == Some(Item("Laptop", 1000.0, 10))
    ensures ItemAt(MergeInventories(CreateInventory(), CreateInventory()), "Groceries", "Apple")
         == Some(Item("Apple", 0.5, 200))
  {
    var s := CreateInventory();
    var all := ViewAllItems(s);
    assert all == [Item("Laptop", 1000.0, 5), Item("Smartphone", 500.0, 10),
                   Item("Apple", 0.5, 100), Item("Banana", 0.3, 100), Item("Milk", 2.5, 100)];
    assert FirstMaxAt(all, 0);
    MostExpensiveUnique(all, FindMostExpensiveItem(s), Some(all[0]));
    MergeItemAt(s, s, "Electronics", "Laptop");
    MergeItemAt(s, s, "Groceries", "Apple");
    assert ItemAt(s, "Electronics", "Laptop") == Some(Item("Laptop", 1000.0, 5));
    assert ItemAt(s, "Groceries", "Apple") == Some(Item("Apple", 0.5, 100));
  }
}
