/**
 The item store: the table of to-do items keyed by id, with the six
 operations of the service. The table is held in memory as a map from id to
 row; `order` keeps the rows in the order the table stores them (insertion
 order, which is also ascending id order) and `nextId` is the table's
 auto-increment counter.
 */
module ItemStore {
  import opened TodoItems
  import opened Ancestry

  /** The columns update_item may assign, and the values it assigns them. */
  datatype Column = NameColumn | ParentColumn | CompleteColumn
  datatype Value = Text(text: string) | Ref(ref: Id) | Flag(flag: bool)

  /** The columns in the order update_item visits them. */
  const UpdatableColumns: seq<Column> := [NameColumn, ParentColumn, CompleteColumn]

  /** The value the caller supplied for column `c`, if any. Supplying
      `complete := Some(false)` counts: only an absent value is skipped. */
  function Supplied(c: Column, name: Option<string>, complete: Option<bool>, parentId: Option<Id>): Option<Value>
  {
    match c
    case NameColumn => if name.Some? then Some(Text(name.value)) else None
    case ParentColumn => if parentId.Some? then Some(Ref(parentId.value)) else None
    case CompleteColumn => if complete.Some? then Some(Flag(complete.value)) else None
  }

  /** Collects the supplied values, column by column, as update_item builds
      the assignments of its UPDATE statement. */
  method CollectNewValues(name: Option<string>, complete: Option<bool>, parentId: Option<Id>)
    returns (newValues: map<Column, Value>)
    ensures forall c :: c in newValues <==> Supplied(c, name, complete, parentId).Some?
    ensures forall c :: c in newValues ==> Supplied(c, name, complete, parentId) == Some(newValues[c])
  {
    newValues := map[];
    for i := 0 to |UpdatableColumns|
      invariant forall c :: c in newValues <==> c in UpdatableColumns[..i] && Supplied(c, name, complete, parentId).Some?
      invariant forall c :: c in newValues ==> Supplied(c, name, complete, parentId) == Some(newValues[c])
    {
      var c := UpdatableColumns[i];
      var value := Supplied(c, name, complete, parentId);
      if value.Some? {
        newValues := newValues[c := value.value];
      }
    }
    assert UpdatableColumns[..|UpdatableColumns|] == UpdatableColumns;
  }

  /** The row after the UPDATE statement assigned the columns in `newValues`. */
  function Assign(it: Item, newValues: map<Column, Value>): Item
  {
    Item(
      it.itemId,
      if NameColumn in newValues && newValues[NameColumn].Text? then newValues[NameColumn].text else it.name,
      if CompleteColumn in newValues && newValues[CompleteColumn].Flag? then newValues[CompleteColumn].flag else it.complete,
      if ParentColumn in newValues && newValues[ParentColumn].Ref? then Some(newValues[ParentColumn].ref) else it.parentId)
  }

  /** Assigning the collected columns sets each supplied field and keeps
      each omitted one. */
  lemma AssignSupplied(it: Item, newValues: map<Column, Value>,
                       name: Option<string>, complete: Option<bool>, parentId: Option<Id>)
    requires forall c :: c in newValues <==> Supplied(c, name, complete, parentId).Some?
    requires forall c :: c in newValues ==> Supplied(c, name, complete, parentId) == Some(newValues[c])
    ensures Assign(it, newValues) == Item(it.itemId,
                                          if name.Some? then name.value else it.name,
                                          if complete.Some? then complete.value else it.complete,
                                          if parentId.Some? then parentId else it.parentId)
  {
    assert NameColumn in newValues <==> name.Some?;
    assert CompleteColumn in newValues <==> complete.Some?;
    assert ParentColumn in newValues <==> parentId.Some?;
  }

  /** `s` lists ids in strictly ascending order. */
  ghost predicate Ascending(s: seq<Id>)
  {
    forall i, j :: 0 <= i < j < |s| ==> s[i] < s[j]
  }

  /** `s` without `x`. */
  function Erase(s: seq<Id>, x: Id): (r: seq<Id>)
    ensures forall y :: y in r <==> y in s && y != x
  {
    if s == [] then []
    else if s[0] == x then Erase(s[1..], x)
    else [s[0]] + Erase(s[1..], x)
  }

  /** Erasing an id keeps an ascending list ascending. */
  lemma {:induction false} EraseAscending(s: seq<Id>, x: Id)
    requires Ascending(s)
    ensures Ascending(Erase(s, x))
  {
    if s != [] {
      assert Ascending(s[1..]) by {
        forall i, j | 0 <= i < j < |s[1..]| ensures s[1..][i] < s[1..][j] {
          assert s[1..][i] == s[i + 1] && s[1..][j] == s[j + 1];
        }
      }
      EraseAscending(s[1..], x);
      if s[0] != x {
        var rest := Erase(s[1..], x);
        var r := [s[0]] + rest;
        forall i, j | 0 <= i < j < |r| ensures r[i] < r[j] {
          if i == 0 {
            assert r[j] == rest[j - 1] && rest[j - 1] in s[1..];
            var k :| 0 <= k < |s[1..]| && s[1..][k] == rest[j - 1];
            assert s[k + 1] == r[j];
          } else {
            assert r[i] == rest[i - 1] && r[j] == rest[j - 1];
          }
        }
      }
    }
  }

  /** `ps` followed by the outcome of the rest of a walk. */
  function Prepend(ps: seq<Item>, rest: Result<seq<Item>>): Result<seq<Item>>
  {
    match rest
    case Ok(tail) => Ok(ps + tail)
    case Err(e) => Err(e)
  }

  lemma PrependStep(ps: seq<Item>, x: Item, rest: Result<seq<Item>>)
    ensures Prepend(ps, Prepend([x], rest)) == Prepend(ps + [x], rest)
  {
    if rest.Ok? {
      assert ps + ([x] + rest.value) == (ps + [x]) + rest.value;
    }
  }

  /** Every stored row carries its own key; ids handed out so far are
      1 .. nextId - 1; a parent reference was an id handed out when it was
      set; `order` lists exactly the stored ids, ascending. */
  ghost predicate Table(items: map<Id, Item>, order: seq<Id>, nextId: Id)
  {
    && 1 <= nextId
    && (forall id :: id in items ==> 1 <= id < nextId && items[id].itemId == id)
    && (forall id :: id in items && items[id].parentId.Some? ==> 1 <= items[id].parentId.value < nextId)
    && (forall i :: 0 <= i < |order| ==> order[i] in items)
    && (forall id :: id in items ==> id in order)
    && Ascending(order)
  }

  /** The insert of create_item keeps the table invariant. */
  lemma InsertKeepsTable(items: map<Id, Item>, order: seq<Id>, nextId: Id, row: Item)
    requires Table(items, order, nextId)
    requires row.itemId == nextId && (row.parentId.None? || row.parentId.value in items)
    ensures Table(items[nextId := row], order + [nextId], nextId + 1)
  {
    var order' := order + [nextId];
    assert forall i :: 0 <= i < |order| ==> order'[i] == order[i];
  }

  /** The UPDATE of update_item keeps the table invariant. */
  lemma AssignKeepsTable(items: map<Id, Item>, order: seq<Id>, nextId: Id, id: Id, row: Item)
    requires Table(items, order, nextId) && id in items
    requires row.itemId == id && (row.parentId.None? || 1 <= row.parentId.value < nextId)
    ensures Table(items[id := row], order, nextId)
  {
  }

  /** The DELETE of delete_item keeps the table invariant. */
  lemma RemoveKeepsTable(items: map<Id, Item>, order: seq<Id>, nextId: Id, id: Id)
    requires Table(items, order, nextId)
    ensures Table(items - {id}, Erase(order, id), nextId)
  {
    var order' := Erase(order, id);
    EraseAscending(order, id);
    assert forall i :: 0 <= i < |order'| ==> order'[i] in order;
    assert forall k :: k in items - {id} ==> k in order && k != id;
  }

  /** The rows of the table listed in storage order are each stored row
      once, in ascending id order. */
  lemma RowsInOrder(items: map<Id, Item>, order: seq<Id>, nextId: Id, rows: seq<Item>)
    requires Table(items, order, nextId)
    requires |rows| == |order| && forall i :: 0 <= i < |rows| ==> rows[i] == items[order[i]]
    ensures forall i :: 0 <= i < |rows| ==> rows[i].itemId in items && rows[i] == items[rows[i].itemId]
    ensures forall id :: id in items ==> exists i :: 0 <= i < |rows| && rows[i].itemId == id
    ensures forall i, j :: 0 <= i < j < |rows| ==> rows[i].itemId < rows[j].itemId
  {
    assert forall i :: 0 <= i < |rows| ==> rows[i].itemId == order[i];
    forall id | id in items
      ensures exists i :: 0 <= i < |rows| && rows[i].itemId == id
    {
      var i :| 0 <= i < |order| && order[i] == id;
      assert rows[i].itemId == id;
    }
  }

  class Store {
    var items: map<Id, Item>
    var order: seq<Id>
    var nextId: Id

    /** The table invariant holds of the fields. */
    ghost predicate Valid()
      reads this
    {
      Table(items, order, nextId)
    }

    /** An empty table whose first id will be 1. */
    constructor ()
      ensures Valid()
      ensures items == map[] && order == [] && nextId == 1
    {
      items := map[];
      order := [];
      nextId := 1;
    }

    /** read_item: the stored row with this id, or NotFound. */
    function ReadItem(id: Id): (r: Result<Item>)
      reads this
      requires Valid()
      ensures r.Ok? <==> id in items
      ensures r.Ok? ==> r.value == items[id] && r.value.itemId == id
      ensures r.Err? ==> r.error == NotFound
    {
      if id in items then Ok(items[id]) else Err(NotFound)
    }

    /** read_all_items: every stored row, once each, in storage order. */
    method ReadAllItems() returns (rows: seq<Item>)
      requires Valid()
      ensures |rows| == |order| && forall i :: 0 <= i < |rows| ==> rows[i] == items[order[i]]
      ensures forall i :: 0 <= i < |rows| ==> rows[i].itemId in items && rows[i] == items[rows[i].itemId]
      ensures forall id :: id in items ==> exists i :: 0 <= i < |rows| && rows[i].itemId == id
      ensures forall i, j :: 0 <= i < j < |rows| ==> rows[i].itemId < rows[j].itemId
    {
      rows := [];
      for i := 0 to |order|
        invariant |rows| == i
        invariant forall k :: 0 <= k < i ==> rows[k] == items[order[k]]
      {
        rows := rows + [items[order[i]]];
      }
      RowsInOrder(items, order, nextId, rows);
    }

    /** read_item_parents. With `immediateOnly`, the parent alone (or nothing
        for a root). Otherwise the whole walk up to a root, nearest first;
        this walk has no guard against cycles, so it is asked for only when
        it ends (`WalkEndsWithinBound`: every walk that ends at all, and by
        `AcyclicWalkEnds` every walk on an acyclic store). Every lookup that
        misses ends the call with NotFound. */
    method ReadItemParents(id: Id, immediateOnly: bool := true) returns (r: Result<seq<Item>>)
      requires Valid()
      requires !immediateOnly && id in items ==> WalkEndsWithin(items, items[id].parentId, |items| - 1)
      ensures id !in items ==> r == Err(NotFound)
      ensures r.Err? ==> r.error == NotFound
      ensures id in items && immediateOnly ==>
                r == match items[id].parentId
                     case None => Ok([])
                     case Some(p) => if p in items then Ok([items[p]]) else Err(NotFound)
      ensures r.Ok? && immediateOnly ==> |r.value| <= 1 && (r.value == [] <==> items[id].parentId.None?)
      ensures id in items && !immediateOnly ==> r == Lineage(items, items[id].parentId, |items| - 1)
      ensures r.Ok? && !immediateOnly ==> IsChain(items, items[id].parentId, r.value) && |r.value| < |items|
      ensures id in items && !immediateOnly ==>
                (r.Err? <==> exists k :: 0 <= k < |items| && Missing(items, Up(items, items[id].parentId, k)))
    {
      var item := ReadItem(id);
      if item.Err? {
        return Err(NotFound);
      }
      var parents: seq<Item> := [];
      var current := item.value.parentId;

      if immediateOnly {
        if current.Some? {
          var parent := ReadItem(current.value);
          if parent.Err? {
            return Err(NotFound);
          }
          parents := parents + [parent.value];
          assert parents == [items[current.value]];
        }
        return Ok(parents);
      }

      r := WalkToRoot(current, |items| - 1);
      if r.Ok? {
        LineageIsChain(items, current, |items| - 1);
      }
      LineageFails(items, current, |items| - 1);
    }

    /** The loop of read_item_parents: follows parent references from `start`,
        collecting each parent, until a root; a reference to a missing item
        ends it with NotFound. `n` bounds the lookups the walk needs. */
    method WalkToRoot(start: Option<Id>, ghost n: nat) returns (r: Result<seq<Item>>)
      requires Valid()
      requires WalkEndsWithin(items, start, n)
      ensures r == Lineage(items, start, n)
    {
      var parents: seq<Item> := [];
      var current := start;
      assert Lineage(items, start, n).Ok? ==> [] + Lineage(items, start, n).value == Lineage(items, start, n).value;
      while current.Some?
        invariant |parents| <= n
        invariant WalkEndsWithin(items, current, n - |parents|)
        invariant Lineage(items, start, n) == Prepend(parents, Lineage(items, current, n - |parents|))
        decreases n - |parents|
      {
        var parent := ReadItem(current.value);
        if parent.Err? {
          return Err(NotFound);
        }
        PrependStep(parents, parent.value, Lineage(items, parent.value.parentId, n - |parents| - 1));
        parents := parents + [parent.value];
        current := parent.value.parentId;
      }
      assert parents + [] == parents;
      return Ok(parents);
    }

    /** create_item: checks a supplied parent, then inserts the row under the
        next id and reads it back. The name is not checked. */
    method CreateItem(name: string, complete: bool := false, parentId: Option<Id> := None) returns (r: Result<Item>)
      requires Valid()
      modifies this
      ensures Valid()
      ensures parentId.Some? && parentId.value !in old(items) ==>
                && r == Err(InvalidParent)
                && items == old(items) && order == old(order) && nextId == old(nextId)
      ensures parentId.None? || parentId.value in old(items) ==>
                && old(nextId) !in old(items)
                && r == Ok(Item(old(nextId), name, complete, parentId))
                && items == old(items)[old(nextId) := r.value]
                && order == old(order) + [old(nextId)]
                && nextId == old(nextId) + 1
      ensures r.Ok? ==> r == ReadItem(r.value.itemId)
      ensures Acyclic(old(items)) ==> Acyclic(items)
    {
      if parentId.Some? {
        var parent := ReadItem(parentId.value);
        if parent.Err? {
          return Err(InvalidParent);
        }
      }
      var id := nextId;
      var row := Item(id, name, complete, parentId);
      if Acyclic(items) {
        InsertKeepsAcyclic(items, id, row);
      }
      InsertKeepsTable(items, order, nextId, row);
      items := items[id := row];
      order := order + [id];
      nextId := nextId + 1;
      r := ReadItem(id);
    }

    /** update_item: refuses a call that supplies nothing before looking at
        the store, then checks the item and a supplied parent, then assigns
        exactly the supplied columns and reads the row back. There is no
        check that a new parent keeps the store acyclic; an update that
        supplies no parent cannot make or break a cycle. */
    method UpdateItem(id: Id, name: Option<string> := None, complete: Option<bool> := None,
                      parentId: Option<Id> := None) returns (r: Result<Item>)
      requires Valid()
      modifies this
      ensures Valid()
      ensures order == old(order) && nextId == old(nextId)
      ensures name.None? && complete.None? && parentId.None? ==> r == Err(NoFieldsProvided)
      ensures (name.Some? || complete.Some? || parentId.Some?) && id !in old(items) ==> r == Err(NotFound)
      ensures ((name.Some? || complete.Some? || parentId.Some?) && id in old(items)
               && parentId.Some? && parentId.value !in old(items)) ==> r == Err(InvalidParent)
      ensures r.Ok? <==> (name.Some? || complete.Some? || parentId.Some?) && id in old(items)
                         && (parentId.None? || parentId.value in old(items))
      ensures r.Err? ==> items == old(items)
      ensures r.Ok? ==>
                && r.value == Item(id,
                                   if name.Some? then name.value else old(items)[id].name,
                                   if complete.Some? then complete.value else old(items)[id].complete,
                                   if parentId.Some? then parentId else old(items)[id].parentId)
                && items == old(items)[id := r.value]
                && r == ReadItem(id)
      ensures parentId.None? ==> (Acyclic(items) <==> Acyclic(old(items)))
    {
      if name.None? && parentId.None? && complete.None? {
        return Err(NoFieldsProvided);
      }
      var item := ReadItem(id);
      if item.Err? {
        return Err(NotFound);
      }
      if parentId.Some? {
        var parent := ReadItem(parentId.value);
        if parent.Err? {
          return Err(InvalidParent);
        }
      }
      var newValues := CollectNewValues(name, complete, parentId);
      AssignSupplied(items[id], newValues, name, complete, parentId);
      if parentId.None? {
        SameParentKeepsAcyclic(items, id, Assign(items[id], newValues));
      }
      ExecuteUpdate(id, newValues);
      r := ReadItem(id);
    }

    /** The UPDATE statement of update_item: assigns the collected columns
        of one stored row. */
    method ExecuteUpdate(id: Id, newValues: map<Column, Value>)
      requires Valid() && id in items
      requires ParentColumn in newValues && newValues[ParentColumn].Ref? ==> newValues[ParentColumn].ref in items
      modifies this
      ensures Valid()
      ensures items == old(items)[id := Assign(old(items)[id], newValues)]
      ensures order == old(order) && nextId == old(nextId)
    {
      AssignKeepsTable(items, order, nextId, id, Assign(items[id], newValues));
      items := items[id := Assign(items[id], newValues)];
    }

    /** delete_item: checks the item exists, then removes exactly that row.
        Children keep their now dangling parent reference. */
    method DeleteItem(id: Id) returns (r: Result<()>)
      requires Valid()
      modifies this
      ensures Valid()
      ensures nextId == old(nextId)
      ensures id !in old(items) ==> r == Err(NotFound) && items == old(items) && order == old(order)
      ensures id in old(items) ==>
                && r == Ok(())
                && items == old(items) - {id}
                && order == Erase(old(order), id)
      ensures ReadItem(id) == Err(NotFound)
      ensures Acyclic(old(items)) ==> Acyclic(items)
    {
      var item := ReadItem(id);
      if item.Err? {
        return Err(NotFound);
      }
      if Acyclic(items) {
        RemoveKeepsAcyclic(items, id);
      }
      RemoveKeepsTable(items, order, nextId, id);
      items := items - {id};
      order := Erase(order, id);
      r := Ok(());
    }
  }
}
