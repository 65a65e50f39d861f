# To-do item store, modelled in Dafny

The service keeps a table of to-do items. Each item has an id handed out by
the table, a `name`, a `complete` flag and an optional `parent_id` naming
another item, so the items form a forest. The six routes of `main.py` are
modelled as operations on an in-memory `Store` class:

- `read_all_items` lists every row in storage order.
- `read_item` looks a row up by id.
- `read_item_parents` returns the immediate parent, or walks `parent_id`
  links up to a root.
- `create_item` checks a supplied parent, inserts a row and reads it back.
- `update_item` assigns only the supplied fields.
- `delete_item` removes one row, with no cascade.

Files:

- `todo_items.dfy` (module `TodoItems`): the `Item` row, `Option`, the
  `Error` kinds (`NotFound`, `InvalidParent`, `NoFieldsProvided`) and
  `Result`. HTTP status codes become these error values.
- `ancestry.dfy` (module `Ancestry`): the ancestor walk as functions over the
  table (`ParentOf`, `Up`, `WalkEndsWithin`, `Lineage`). It also holds the
  predicates `Acyclic` ("no item is its own ancestor") and `IsChain`, and the
  lemmas about them: an acyclic walk stops within `|items| - 1` lookups (both
  directions), what the walk returns, and that insert and delete keep the
  table acyclic.
- `item_store.dfy` (module `ItemStore`): class `Store` with fields
  `items: map<Id, Item>`, `order: seq<Id>` (storage order) and `nextId`
  (the auto-increment counter behind `cur.lastrowid`). It has the six
  operations and the field-collection loop of `update_item`.
- `scenarios.dfy` (module `Scenarios`): clients that fix concrete outcomes.
  These are the three-level ancestor query, a walk that meets a parent
  deleted earlier, and an update that makes an item its own grandparent.

Ids are natural numbers. The store hands out 1, 2, 3, ... and never reuses
an id. The code tests parent ids for truthiness in two kinds of place, and
the model writes both as `Some?`:

- `if current_parent_id:` and `while current_parent_id:` in
  `read_item_parents` test a reference read from the table. `Store.Valid()`
  keeps every stored parent reference between 1 and `nextId - 1`, so such a
  reference is truthy exactly when it is present.
- `if parent_id:` in `create_item` and `update_item` tests the caller's
  argument. Every non-empty id string is truthy, so the test means "a parent
  id was supplied". The empty string is the one exception (see below).

The walk in `read_item_parents` has no guard against cycles, and
`update_item` does not stop a cycle from being made. The model adds neither
check. The full walk instead requires that the walk from the item's parent
ends within `|items| - 1` lookups. `Ancestry.WalkEndsWithinBound` shows that
every walk that ends at all ends within that bound, so the requirement is
exactly that the code's loop ends. `Ancestry.AcyclicWalkEnds` shows that it
holds for every item of an acyclic store. `Scenarios.UpdateCreatesCycle`
shows that `UpdateItem` accepts an update that breaks acyclicity, as the
code does, and `Scenarios.WalkBesideCycle` shows a walk that still ends on
such a store.

`create_item` does not check that the name is non-empty, and there is no
`ValidationError`. Neither `update_item` nor the ancestor walk checks for
cycles.

## Model

| member | source | states |
|---|---|---|
| `ItemStore.Store.ReadItem` | main.py:56-81 | Returns Ok with exactly the stored row when the id is stored, and that row carries the id asked for. Otherwise it fails with NotFound. Being a function, it changes nothing. |
| `ItemStore.Store.ReadAllItems` | main.py:33-53 | Returns one row per stored id, in storage order. Each row is the stored row for its id, every stored item appears, and rows come in strictly ascending id order. Nothing changes. |
| `ItemStore.Store.ReadItemParents` | main.py:84-112 | Fails with NotFound when the item is absent. With `immediateOnly` (the default), it returns `[parent]` when the item has a stored parent, `[]` for a root, and NotFound for a dangling parent, so at most one element. Otherwise, when that walk ends (it always does on an acyclic store), the result equals the walk `Lineage`. On success that walk is the ancestor chain: first the item's parent, each next element the parent of the one before, the last a root, with fewer elements than there are items. The full walk fails, with NotFound, exactly when some reference on the walk names a missing item. |
| `ItemStore.Store.WalkToRoot` | main.py:108-112 | The `while` loop of the ancestor walk. When the walk is known to stop within `n` lookups, the loop returns exactly `Lineage` of its start: the parents collected nearest first up to a root, or NotFound at the first missing one. |
| `ItemStore.RowsInOrder` | main.py:42-53 | Rows listed in storage order are the stored rows, each once, in strictly ascending id order. |
| `ItemStore.Store.CreateItem` | main.py:115-146 | A supplied parent that is not stored gives InvalidParent and changes nothing. Otherwise exactly one row is added, under the previous `nextId`, which was not stored before. The row has the given name, the given `complete` (default false) and the given parent. Every other row is unchanged, the result equals `ReadItem` of the new id, and an acyclic store stays acyclic. |
| `ItemStore.Store.UpdateItem` | main.py:149-205 | With no field supplied it gives NoFieldsProvided, whatever the id, because this check comes first. Next, an absent item gives NotFound, then a supplied parent that is not stored gives InvalidParent. Every failure leaves the store unchanged. It succeeds exactly when none of these applies. Then only that item changes: each supplied field (including `complete := Some(false)`) takes the new value and each omitted field keeps the old one. The result equals `ReadItem(id)`. An update that supplies no parent leaves the store acyclic exactly when it was acyclic before. |
| `ItemStore.CollectNewValues` | main.py:192-197 | The collected map holds a column exactly when the caller supplied a value for it (`!= None`, so `false` counts), and that column maps to the supplied value. |
| `ItemStore.AssignSupplied` | main.py:193-203 | Assigning the collected columns sets each supplied field to its new value and keeps each omitted field. |
| `ItemStore.Store.ExecuteUpdate` | main.py:199-204 | The UPDATE changes only the one row, to that row with the collected columns assigned. |
| `ItemStore.Store.DeleteItem` | main.py:208-227 | An absent id gives NotFound and changes nothing. Otherwise it removes exactly that id from the table and from the storage order. Every other row is unchanged, including children whose parent reference now dangles. Afterwards `ReadItem(id)` is NotFound, and an acyclic store stays acyclic. |
| `ItemStore.EraseAscending` | main.py:226 | Removing an id from the storage order keeps it in ascending id order. |
| `Ancestry.AcyclicWalkEnds` | main.py:108-111 | On an acyclic store, the walk up from a stored item ends, at a root or at a missing parent, within `|items| - 1` lookups. |
| `Ancestry.RepeatWithin` | main.py:108-111 | A walk up from a stored item that has not stopped after `|items| - 1` lookups has met some stored item twice among its first `|items| + 1` references. |
| `Ancestry.WalkEndsWithinBound` | main.py:108-111 | A walk up from a stored item that ends within any number of lookups ends within `|items| - 1` of them, because a walk that meets a reference twice loops for ever. |
| `Ancestry.SameParentKeepsAcyclic` | main.py:192-204 | Replacing a stored row by one with the same parent reference leaves the store acyclic exactly when it was. |
| `Ancestry.AcyclicIff` | main.py:108-111 | A store is acyclic exactly when the walk from every stored item ends within `|items| - 1` lookups. |
| `Ancestry.LineageIsChain` | main.py:108-112 | A successful walk returns the ancestor chain: empty exactly for a root, starting with the parent, each element followed by its parent, ending at a root. It is no longer than its lookup bound. |
| `Ancestry.LineageFails` | main.py:108-111 | The walk fails exactly when one of the references it follows names a missing item, and it then fails with NotFound. |
| `Ancestry.InsertKeepsAcyclic` | main.py:131-146 | Inserting a row under a fresh id that nothing refers to, with no parent or a stored parent, keeps the store acyclic. |
| `Ancestry.RemoveKeepsAcyclic` | main.py:218-227 | Removing a row keeps the store acyclic, although it may leave dangling references. |
| `Scenarios.ThreeLevels` | main.py:98-146 | After creating A, then B under A, then C under B, the full walk from C is `[B, A]`. The immediate query gives `[B]`, and the full walk from A gives `[]`. |
| `Scenarios.DanglingAfterDelete` | main.py:98-111 | After deleting the middle item B of A, B, C, both the full walk and the immediate query from C fail with NotFound. |
| `Scenarios.UpdateCreatesCycle` | main.py:182-205 | With A and B under A, making A a child of B succeeds, and the store is then not acyclic. |
| `Scenarios.WalkBesideCycle` | main.py:98-111 | On that cyclic store, a new root C can still be queried: its full walk ends at once with `[]`. |

## Left out

- The FastAPI routing, decorators, query-parameter parsing and HTTP status
  codes. Errors are the `Error` values instead.
- The MariaDB connection, cursor, `conn.commit()`, `print` and `sys.exit`.
  These are process setup and external I/O. The table is the `items` map.
- The SQL text built by `update_item`, including its `%r` quoting. Only its
  effect, assigning the collected columns (`Assign`), is modelled.
- Error message strings, including the parent id that the item-not-found
  message of `update_item` interpolates instead of the item id.
- Ids are natural numbers rather than the strings the routes receive. So a
  `parent_id` of `""`, which is falsy in Python and skips the parent check,
  is not modelled.
- `complete` is a boolean. The database driver hands back its stored 0/1
  as an integer.
- The counter moves by exactly one per insert. Gaps the database's
  auto-increment may leave are not modelled.
- Storage order is insertion order, which is ascending id order. An
  unordered `SELECT` that returns rows in another order is not modelled.
- `ReadItemParents`: the full walk is specified only when it ends. When the
  chain up from the queried item runs into a cycle, the code's loop never
  ends (a cycle elsewhere in the store does not matter). The model has no
  run that does not end, so it does not describe that call.
- Concurrency and transactions around the check-then-write sequences. The
  model runs each operation alone, in sequence.
