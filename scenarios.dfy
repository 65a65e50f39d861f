/**
 Clients of the store that fix concrete outcomes: what the ancestor queries
 return on a three-level chain, what a walk meets after a delete in the
 middle of the chain, and an update that the store accepts although it makes
 an item its own ancestor.
 */
module Scenarios {
  import opened TodoItems
  import opened Ancestry
  import opened ItemStore

  const ItemA := Item(1, "A", false, None)
  const ItemB := Item(2, "B", false, Some(1))
  const ItemC := Item(3, "C", false, Some(2))

  function ThreeItems(): map<Id, Item>
  {
    map[1 := ItemA, 2 := ItemB, 3 := ItemC]
  }

  /** Whatever the lookup bound, the walk from C's parent is [B, A]. */
  lemma LineageOfC(n: nat)
    requires WalkEndsWithin(ThreeItems(), Some(2), n)
    ensures Lineage(ThreeItems(), Some(2), n) == Ok([ItemB, ItemA])
  {
    var m := ThreeItems();
    assert m[1] == ItemA && m[2] == ItemB;
    assert Lineage(m, None, n - 2) == Ok([]);
    assert [ItemA] + [] == [ItemA];
    assert Lineage(m, Some(1), n - 1) == Ok([ItemA]);
    assert [ItemB] + [ItemA] == [ItemB, ItemA];
  }

  /** Creates A, then B under A, in a new store. */
  method BuildTwoLevels() returns (s: Store)
    ensures fresh(s) && s.Valid() && s.items == map[1 := ItemA, 2 := ItemB] && s.nextId == 3
    ensures Acyclic(s.items)
  {
    s := new Store();
    var a := s.CreateItem("A");
    assert s.items == map[1 := ItemA];
    var b := s.CreateItem("B", parentId := Some(1));
  }

  /** Creates A, then B under A, then C under B, in a new store. */
  method BuildThreeLevels() returns (s: Store)
    ensures fresh(s) && s.Valid() && s.items == ThreeItems() && Acyclic(s.items)
  {
    s := BuildTwoLevels();
    var c := s.CreateItem("C", parentId := Some(2));
  }

  /** A, B under A, C under B: the full walk from C is [B, A], the immediate
      query gives [B], and the root A has no ancestors. */
  method ThreeLevels() returns (full: Result<seq<Item>>, immediate: Result<seq<Item>>, ofRoot: Result<seq<Item>>)
    ensures full == Ok([ItemB, ItemA])
    ensures immediate == Ok([ItemB])
    ensures ofRoot == Ok([])
  {
    var s := BuildThreeLevels();
    assert s.items[3] == ItemC && s.items[2] == ItemB && s.items[1] == ItemA;
    AcyclicWalkEnds(s.items, 3);
    full := s.ReadItemParents(3, immediateOnly := false);
    LineageOfC(|s.items| - 1);
    assert full == Ok([ItemB, ItemA]);
    immediate := s.ReadItemParents(3);
    assert immediate == Ok([ItemB]);
    AcyclicWalkEnds(s.items, 1);
    ofRoot := s.ReadItemParents(1, immediateOnly := false);
    assert Lineage(s.items, None, |s.items| - 1) == Ok([]);
  }

  /** Deleting B leaves C pointing at a missing parent: the full walk from C
      fails with NotFound, and so does the immediate query. */
  method DanglingAfterDelete() returns (deleted: Result<()>, full: Result<seq<Item>>, immediate: Result<seq<Item>>)
    ensures deleted == Ok(())
    ensures full == Err(NotFound) && immediate == Err(NotFound)
  {
    var s := BuildThreeLevels();
    assert 2 in s.items && s.items[3] == ItemC;
    deleted := s.DeleteItem(2);
    assert 2 !in s.items && 3 in s.items && s.items[3] == ItemC;
    AcyclicWalkEnds(s.items, 3);
    full := s.ReadItemParents(3, immediateOnly := false);
    immediate := s.ReadItemParents(3);
  }

  /** With A and B under A, making A a child of B succeeds, and the store
      is no longer acyclic: A is its own grandparent. */
  method UpdateCreatesCycle() returns (s: Store, r: Result<Item>)
    ensures r == Ok(Item(1, "A", false, Some(2)))
    ensures !Acyclic(s.items)
    ensures fresh(s) && s.Valid() && s.nextId == 3
    ensures s.items == map[1 := Item(1, "A", false, Some(2)), 2 := ItemB]
  {
    s := BuildTwoLevels();
    r := s.UpdateItem(1, parentId := Some(2));
    assert Up(s.items, Some(1), 2) == Some(1);
  }

  /** A cycle elsewhere does not stop a walk: after A and B are made each
      other's parent, a new root C still has the full ancestor list []. */
  method WalkBesideCycle() returns (s: Store, full: Result<seq<Item>>)
    ensures !Acyclic(s.items)
    ensures full == Ok([])
  {
    var cyclic, r := UpdateCreatesCycle();
    s := cyclic;
    var c := s.CreateItem("C");
    assert s.items[3].parentId == None;
    assert Up(s.items, Some(1), 2) == Some(1);
    full := s.ReadItemParents(3, immediateOnly := false);
    assert Lineage(s.items, None, |s.items| - 1) == Ok([]);
  }
}
