# Inventory store model

This project models `inventory_system.py`, a small in-memory inventory utility. The inventory
is a two-level insertion-ordered mapping: category name → item name → item record. A record
has a `name`, a `price` and a `quantity`. On top of that mapping sit:

- a factory for a starter inventory;
- a guarded field-wise update that reports a lookup miss as `false`;
- a merge of two inventories. An item held by both inputs gets the sum of the quantities and
  the higher price;
- two scanning queries: the most expensive item, and the first category holding an item in
  stock;
- four views: category names, all records, (category, item) pairs, and one category;
- a copy operation.

Layout:

- `wrappers.dfy` (`Wrappers`): `Option`, which stands in for Python's `None`.
- `assoc_list.dfy` (`AssocList`): a Python `dict` as an association list (`seq<(K, V)>`).
  - Lookup is `Get` and assignment is `Put`. `Put` overwrites a present key in place and
    appends a new key at the end.
  - `Absorb` is the loop "for each entry of `src`: combine it with the present value, or
    insert it". Merge uses it at both levels.
- `inventory_system.dfy` (`InventorySystem`): the records, the patch, the well-formedness
  invariant (unique keys at both levels) and every operation of the module.
- `inventory_laws.dfy` (`InventoryLaws`): lemmas relating the operations.

Every operation is a pure function. Where the source mutates a dictionary in place
(`update_inventory`, the merge loop), the model returns the new value. Prices are `real`:
the source only compares prices and takes their maximum. Quantities are `int`.

## Model

| member | source | states |
|---|---|---|
| AssocList.Get | inventory_system.py:44 | A lookup succeeds exactly when the key is among the dictionary's keys, and then yields a value stored under that key |
| AssocList.Put | inventory_system.py:69 | Assignment makes the key map to the new value and leaves every other key's value alone. A present key keeps its position and a new key is appended last. Unique keys stay unique |
| AssocList.AbsorbGet | inventory_system.py:60-72 | After the merge loop, a key held by both sides maps to the combination of the two values. A key held by one side keeps that side's value |
| AssocList.Absorb | inventory_system.py:61-71 | The merge loop, folding one side's entries into the other, keeps keys unique |
| AssocList.AbsorbKeys | inventory_system.py:60-72 | After the merge loop, the keys are the accumulator's keys in order, followed by the other side's new keys in that side's order |
| InventorySystem.CreateInventory | inventory_system.py:4-29 | The starter inventory is well formed, with categories "Electronics" then "Groceries" |
| InventorySystem.ApplyPatch | inventory_system.py:45 | Each field the update supplies is overwritten, and each field it omits keeps its old value |
| InventorySystem.GetItemsInCategory | inventory_system.py:85 | An absent category yields the empty category. A present one yields the category stored under that name |
| InventorySystem.UpdateInventory | inventory_system.py:44-47 | Returns true exactly when the category exists and holds the item. On false the inventory is unchanged. On true only that record changes, by the patch; every other record and category is unchanged and key order is kept at both levels |
| InventorySystem.PutItemFrame | inventory_system.py:44-46 | Patching one record of an existing category changes that record only: every other record and category lookup is the same, and the category names and each category's item names keep their order |
| InventorySystem.CombineItems | inventory_system.py:64-67 | An item held by both inputs gets the sum of the quantities and the larger of the two prices, and keeps the first input's name |
| InventorySystem.MergeCategory | inventory_system.py:63-69 | Merging a category into one with unique item names keeps them unique |
| InventorySystem.MergeInventories | inventory_system.py:60-72 | Merging into an inventory with unique category names keeps them unique |
| InventorySystem.MostExpensive | inventory_system.py:97-106 | The strict-`>` scan returns None exactly for no records. Otherwise it returns a record whose price bounds every price, and no earlier record attains that price |
| InventorySystem.Better | inventory_system.py:102-104 | The loop body keeps the current best unless the new record's price is strictly higher, so the result is always one of the two. Once there is a best, its price never drops and is at least the new record's price |
| InventorySystem.BetterExtends | inventory_system.py:102-104 | One iteration of the scan's loop body keeps "first strict maximum so far" true of the extended prefix |
| InventorySystem.FindMostExpensiveItem | inventory_system.py:87-106 | The result is the earliest maximal-price record in category-then-item order, or None when the inventory holds no records |
| InventorySystem.InStock | inventory_system.py:120-121 | With unique item names, a category has the item in stock exactly when some entry carries that name and a positive quantity |
| InventorySystem.CheckItemInStock | inventory_system.py:119-123 | Returns None exactly when no category holds the name with quantity > 0. Otherwise returns that name's record from the first such category, skipping earlier categories where its quantity is ≤ 0 |
| InventorySystem.ViewAllItems | inventory_system.py:147 | A record is in the all-records view exactly when it is a record of some category |
| InventorySystem.ViewCategoryItemPairs | inventory_system.py:159 | One (category, item) pair per record, so the pairs view is as long as the all-records view |
| InventorySystem.ViewCategories | inventory_system.py:135 | The category names, one per category, in insertion order |
| InventorySystem.CopyInventory | inventory_system.py:172-175 | In a value model, both copy modes return a value equal to the original |
| InventoryLaws.CategoryUnique | inventory_system.py:85 | In a well-formed inventory, every category returned by lookup has unique item names, including the empty one for an absent name |
| InventoryLaws.UpdateKeepsWellFormed | inventory_system.py:44-47 | An update keeps keys unique at both levels |
| InventoryLaws.MergeCategoryGet | inventory_system.py:63-69 | Within a shared category, each item name maps to the combined record if both inputs hold it, otherwise to the record of whichever input holds it |
| InventoryLaws.MergeItemAt | inventory_system.py:60-72 | For every category and item name, the merge holds the combined record if both inputs hold one. Otherwise it holds whichever input's record exists, including items of categories missing from the first input |
| InventoryLaws.MergeCommutes | inventory_system.py:64-67 | For an item held by both inputs, the merged quantity (q1 + q2) and price are the same whichever input comes first |
| InventoryLaws.MergeKeepsWellFormed | inventory_system.py:60-72 | Merging two well-formed inventories yields a well-formed inventory |
| InventoryLaws.MergeCategoryOrder | inventory_system.py:60-72 | The merged category names are the first input's names in order, then the second input's new names in its order |
| InventoryLaws.MergeItemOrder | inventory_system.py:61-71 | In every category, the merged item names are the first input's names in order, then the second input's new names in its order |
| InventoryLaws.OffsetStep | inventory_system.py:147 | The records of each category come right after those of the categories before it, and the offsets add up to the total number of records |
| InventoryLaws.ViewPositions | inventory_system.py:147-159 | Record `ii` of category `ci` sits at the same position in both flat views, and the pair there names its category and item key |
| InventoryLaws.PairsNameItems | inventory_system.py:159 | In a well-formed inventory, looking up the i-th pair's category and item name yields the i-th record of the all-records view |
| InventoryLaws.MostExpensiveUnique | inventory_system.py:97-106 | The first-strict-maximum specification allows only one answer |
| InventoryLaws.StarterScenario | inventory_system.py:4-29 | Starter inventory: categories are Electronics then Groceries, and the most expensive item is the Laptop. Merging it with itself gives Laptop quantity 10 at price 1000, and Apple quantity 200 |

## Left out

- CopyInventory: states only that the copy equals the original. The deep versus shallow
  distinction is about object identity: a shallow copy shares category objects with the
  original. A value model has no identity, so both modes coincide.
- `merge_inventories` puts the second input's records and whole categories into the result
  without copying them. In Python the result therefore shares objects with the second input.
  That is an identity effect with no counterpart in a value model.
- Aliasing inside an inventory is not modelled: every record and every category is an
  independent value. In Python such sharing arises in three ways.
  - `copy.deepcopy` preserves sharing inside the first input. If one record object appears under
    two keys, the merge's in-place `+=` changes both.
  - `deepcopy` likewise keeps one category dict shared under two category names. The merge's
    item assignment then adds the item under both names.
  - The in-place `.update` of `update_inventory` changes every alias of the record. That
    includes records of a second input that an earlier merge put into its result.
- The `float('-inf')` sentinel of `find_most_expensive_item` becomes `None` for "no best yet".
  Any real price is above it, so the first record always replaces it.
- Prices are exact reals, not IEEE floats. NaN and rounding are not modelled. Python's mix of
  `int` and `float` prices becomes one `real` type.
- `update_inventory` accepts arbitrary extra keys in `update_info`. The patch here has only
  the three record fields. Records are a fixed three-field datatype, so the `KeyError`
  raised for a record without `price` or `quantity` cannot occur.
- Prices and quantities are meant to be non-negative, but the code never checks this. The
  model follows the code and allows any value.
