/**
 The ancestor walk over the item table, as values: the parent step, the walk
 that `read_item_parents` performs when it is asked for every ancestor, and
 what acyclicity of the parent references buys that walk.
 */
module Ancestry {
  import opened TodoItems

  /** One step up: the parent reference of the item `cur` names, or None once
      `cur` is None or names no stored item (the walk has stopped there). */
  function ParentOf(items: map<Id, Item>, cur: Option<Id>): Option<Id>
  {
    if cur.Some? && cur.value in items then items[cur.value].parentId else None
  }

  /** The reference reached after `k` steps up from `cur`. */
  function Up(items: map<Id, Item>, cur: Option<Id>, k: nat): Option<Id>
    decreases k
  {
    if k == 0 then cur else Up(items, ParentOf(items, cur), k - 1)
  }

  /** `r` is a reference to an item that is not in the store. */
  predicate Missing(items: map<Id, Item>, r: Option<Id>)
  {
    r.Some? && r.value !in items
  }

  /** No stored item is its own ancestor. */
  ghost predicate Acyclic(items: map<Id, Item>)
  {
    forall id, k: nat :: id in items && 0 < k ==> Up(items, Some(id), k) != Some(id)
  }

  /** Walking up from `cur` stops, at a root or at a reference to a missing
      item, after at most `n` successful lookups. */
  predicate WalkEndsWithin(items: map<Id, Item>, cur: Option<Id>, n: nat)
    decreases n
  {
    match cur
    case None => true
    case Some(p) => p !in items || (0 < n && WalkEndsWithin(items, items[p].parentId, n - 1))
  }

  /** The items met when walking up from `cur`, nearest first, or NotFound if
      the walk meets a reference to a missing item. `n` bounds the lookups. */
  function Lineage(items: map<Id, Item>, cur: Option<Id>, n: nat): Result<seq<Item>>
    requires WalkEndsWithin(items, cur, n)
    decreases n
  {
    match cur
    case None => Ok([])
    case Some(p) =>
      if p !in items then Err(NotFound)
      else
        match Lineage(items, items[p].parentId, n - 1)
        case Ok(rest) => Ok([items[p]] + rest)
        case Err(e) => Err(e)
  }

  /** `ps` is the ancestor chain starting at reference `cur`: it is empty
      exactly when `cur` is None, its first element is the item `cur` names,
      each next element is the parent of the one before, and the last one is
      a root. */
  ghost predicate IsChain(items: map<Id, Item>, cur: Option<Id>, ps: seq<Item>)
  {
    && (ps == [] <==> cur.None?)
    && (ps != [] ==> cur.value in items && ps[0] == items[cur.value])
    && (forall i :: 0 <= i < |ps| - 1 ==>
          ps[i].parentId.Some? && ps[i].parentId.value in items && ps[i + 1] == items[ps[i].parentId.value])
    && (ps != [] ==> ps[|ps| - 1].parentId.None?)
  }

  // ---------------------------------------------------------------------------
  // Facts about the parent step

  lemma {:induction false} UpFromNone(items: map<Id, Item>, k: nat)
    ensures Up(items, None, k) == None
    decreases k
  {
    if k > 0 {
      UpFromNone(items, k - 1);
    }
  }

  /** Walking `i + m` steps is walking `i` steps, then `m` more. */
  lemma {:induction false} UpAdd(items: map<Id, Item>, cur: Option<Id>, i: nat, m: nat)
    ensures Up(items, cur, i + m) == Up(items, Up(items, cur, i), m)
    decreases i
  {
    if i > 0 {
      UpAdd(items, ParentOf(items, cur), i - 1, m);
    }
  }

  /** If the walk from `cur` does not stop within `n` lookups, its first
      `n + 1` references all name stored items. */
  lemma {:induction false} StaysInside(items: map<Id, Item>, cur: Option<Id>, n: nat)
    requires !WalkEndsWithin(items, cur, n)
    ensures forall k :: 0 <= k <= n ==> Up(items, cur, k).Some? && Up(items, cur, k).value in items
    decreases n
  {
    var p := cur.value;
    if n > 0 {
      StaysInside(items, items[p].parentId, n - 1);
      forall k | 0 < k <= n
        ensures Up(items, cur, k).Some? && Up(items, cur, k).value in items
      {
        assert Up(items, cur, k) == Up(items, items[p].parentId, k - 1);
      }
    }
  }

  /** If the walk from `cur` stops within `n` lookups, some reference among
      its first `n + 1` is None or names a missing item. */
  lemma {:induction false} EndsSomewhere(items: map<Id, Item>, cur: Option<Id>, n: nat) returns (j: nat)
    requires WalkEndsWithin(items, cur, n)
    ensures j <= n && (Up(items, cur, j).None? || Missing(items, Up(items, cur, j)))
    decreases n
  {
    if cur.None? || cur.value !in items {
      j := 0;
    } else {
      var p := cur.value;
      var j' := EndsSomewhere(items, items[p].parentId, n - 1);
      j := j' + 1;
      assert Up(items, cur, j) == Up(items, items[p].parentId, j');
    }
  }

  /** On a cycle through `x`, every reference of the walk from `x` names a
      stored item. */
  lemma {:induction false} CycleStaysInside(items: map<Id, Item>, x: Id, k: nat, m: nat)
    requires x in items && 0 < k && Up(items, Some(x), k) == Some(x)
    ensures Up(items, Some(x), m).Some? && Up(items, Some(x), m).value in items
    decreases m
  {
    if m >= k {
      UpAdd(items, Some(x), k, m - k);
      CycleStaysInside(items, x, k, m - k);
    } else {
      var at := Up(items, Some(x), m);
      if at.None? || at.value !in items {
        UpAdd(items, Some(x), m, 1);
        assert Up(items, Some(x), m + 1) == None;
        UpAdd(items, Some(x), m + 1, k - m - 1);
        UpFromNone(items, k - m - 1);
        assert false;
      }
    }
  }

  /** A sequence of distinct elements of `keys` is no longer than `keys`. */
  lemma {:induction false} DistinctBound(s: seq<Id>, keys: set<Id>)
    requires forall i :: 0 <= i < |s| ==> s[i] in keys
    requires forall i, j :: 0 <= i < j < |s| ==> s[i] != s[j]
    ensures |s| <= |keys|
    decreases |s|
  {
    if |s| > 0 {
      assert forall i :: 0 <= i < |s| - 1 ==> s[1..][i] == s[i + 1];
      DistinctBound(s[1..], keys - {s[0]});
    }
  }

  // ---------------------------------------------------------------------------
  // Acyclicity and termination of the walk

  /** If the walk up from a stored item does not stop within fewer lookups
      than there are items, two of its first `|items| + 1` references name
      the same stored item. */
  lemma RepeatWithin(items: map<Id, Item>, id: Id) returns (i: nat, j: nat)
    requires id in items && !WalkEndsWithin(items, items[id].parentId, |items| - 1)
    ensures i < j <= |items|
    ensures Up(items, Some(id), i) == Up(items, Some(id), j)
    ensures Up(items, Some(id), i).Some? && Up(items, Some(id), i).value in items
  {
    var n := |items|;
    StaysInside(items, items[id].parentId, n - 1);
    assert forall k :: 0 < k <= n ==> Up(items, Some(id), k) == Up(items, items[id].parentId, k - 1);
    var s := seq(n + 1, k requires 0 <= k => match Up(items, Some(id), k) case Some(q) => q case None => id);
    assert forall k :: 0 <= k <= n ==> Up(items, Some(id), k) == Some(s[k]) && s[k] in items;
    if forall i, j :: 0 <= i < j < |s| ==> s[i] != s[j] {
      DistinctBound(s, items.Keys);
      assert false;
    }
    i, j :| 0 <= i < j < |s| && s[i] == s[j];
  }

  /** On an acyclic store the walk up from a stored item stops after fewer
      lookups than there are items: it cannot meet the same item twice, and it
      never meets the item it started from. */
  lemma AcyclicWalkEnds(items: map<Id, Item>, id: Id)
    requires Acyclic(items) && id in items
    ensures WalkEndsWithin(items, items[id].parentId, |items| - 1)
  {
    if !WalkEndsWithin(items, items[id].parentId, |items| - 1) {
      var i, j := RepeatWithin(items, id);
      UpAdd(items, Some(id), i, j - i);
      assert false;
    }
  }

  /** A walk up from a stored item that stops at all stops within fewer
      lookups than there are items: once a reference repeats, the walk goes
      round that cycle for ever. So bounding the walk by `|items| - 1` loses
      no walk that ends. */
  lemma WalkEndsWithinBound(items: map<Id, Item>, id: Id, m: nat)
    requires id in items && WalkEndsWithin(items, items[id].parentId, m)
    ensures WalkEndsWithin(items, items[id].parentId, |items| - 1)
  {
    if !WalkEndsWithin(items, items[id].parentId, |items| - 1) {
      var i, j := RepeatWithin(items, id);
      UpAdd(items, Some(id), i, j - i);
      var e := EndsSomewhere(items, items[id].parentId, m);
      if e + 1 < i {
        StaysInside(items, items[id].parentId, |items| - 1);
      } else {
        assert Up(items, Some(id), e + 1) == Up(items, items[id].parentId, e);
        UpAdd(items, Some(id), i, e + 1 - i);
        CycleStaysInside(items, Up(items, Some(id), i).value, j - i, e + 1 - i);
      }
      assert false;
    }
  }

  /** Acyclicity is exactly "the walk from every stored item stops within
      fewer lookups than there are items". */
  lemma AcyclicIff(items: map<Id, Item>)
    ensures Acyclic(items) <==>
            forall id :: id in items ==> WalkEndsWithin(items, items[id].parentId, |items| - 1)
  {
    if Acyclic(items) {
      forall id | id in items
        ensures WalkEndsWithin(items, items[id].parentId, |items| - 1)
      {
        AcyclicWalkEnds(items, id);
      }
    } else {
      var x, k: nat :| x in items && 0 < k && Up(items, Some(x), k) == Some(x);
      if WalkEndsWithin(items, items[x].parentId, |items| - 1) {
        var j := EndsSomewhere(items, items[x].parentId, |items| - 1);
        assert Up(items, Some(x), j + 1) == Up(items, items[x].parentId, j);
        CycleStaysInside(items, x, k, j + 1);
        assert false;
      }
    }
  }

  // ---------------------------------------------------------------------------
  // What the walk returns

  /** A successful walk returns the ancestor chain, no longer than the bound. */
  lemma {:induction false} LineageIsChain(items: map<Id, Item>, cur: Option<Id>, n: nat)
    requires WalkEndsWithin(items, cur, n) && Lineage(items, cur, n).Ok?
    ensures IsChain(items, cur, Lineage(items, cur, n).value)
    ensures |Lineage(items, cur, n).value| <= n
    decreases n
  {
    if cur.Some? {
      var p := cur.value;
      var next := items[p].parentId;
      LineageIsChain(items, next, n - 1);
      var rest := Lineage(items, next, n - 1).value;
      var ps := [items[p]] + rest;
      assert Lineage(items, cur, n).value == ps;
      forall i | 0 <= i < |ps| - 1
        ensures ps[i].parentId.Some? && ps[i].parentId.value in items && ps[i + 1] == items[ps[i].parentId.value]
      {
        if i > 0 {
          assert ps[i] == rest[i - 1] && ps[i + 1] == rest[i];
        }
      }
    }
  }

  /** The walk fails exactly when one of the references it follows names a
      missing item, and then it fails with NotFound. */
  lemma {:induction false} LineageFails(items: map<Id, Item>, cur: Option<Id>, n: nat)
    requires WalkEndsWithin(items, cur, n)
    ensures Lineage(items, cur, n).Err? <==> exists k :: 0 <= k <= n && Missing(items, Up(items, cur, k))
    ensures Lineage(items, cur, n).Err? ==> Lineage(items, cur, n).error == NotFound
    decreases n
  {
    match cur
    case None =>
      forall k | 0 <= k <= n
        ensures !Missing(items, Up(items, cur, k))
      {
        UpFromNone(items, k);
      }
    case Some(p) =>
      if p !in items {
        assert Lineage(items, cur, n) == Err(NotFound);
        assert Missing(items, Up(items, cur, 0));
        assert exists k :: 0 <= k <= n && Missing(items, Up(items, cur, k));
      } else {
        var next := items[p].parentId;
        LineageFails(items, next, n - 1);
        assert forall k :: 0 < k <= n ==> Up(items, cur, k) == Up(items, next, k - 1);
        if Lineage(items, next, n - 1).Err? {
          var k :| 0 <= k <= n - 1 && Missing(items, Up(items, next, k));
          assert Missing(items, Up(items, cur, k + 1));
          assert exists k' :: 0 <= k' <= n && Missing(items, Up(items, cur, k'));
          assert Lineage(items, cur, n) == Lineage(items, next, n - 1);
          assert Lineage(items, cur, n).Err?;
        } else {
          forall k | 0 <= k <= n
            ensures !Missing(items, Up(items, cur, k))
          {
            if k > 0 {
              assert !Missing(items, Up(items, next, k - 1));
            }
          }
        }
      }
  }

  // ---------------------------------------------------------------------------
  // How create and delete affect acyclicity

  /** Adding an item under a fresh id that nothing refers to leaves every
      walk that does not start at the new id as it was, and such a walk
      never reaches the new id. */
  lemma {:induction false} UpAfterInsert(items: map<Id, Item>, id: Id, it: Item, cur: Option<Id>, k: nat)
    requires id !in items
    requires forall q :: q in items ==> items[q].parentId != Some(id)
    requires cur != Some(id)
    ensures Up(items[id := it], cur, k) == Up(items, cur, k)
    ensures Up(items, cur, k) != Some(id)
    decreases k
  {
    if k > 0 {
      assert ParentOf(items[id := it], cur) == ParentOf(items, cur);
      UpAfterInsert(items, id, it, ParentOf(items, cur), k - 1);
    }
  }

  /** The insert that create_item performs keeps the store acyclic. */
  lemma InsertKeepsAcyclic(items: map<Id, Item>, id: Id, it: Item)
    requires Acyclic(items)
    requires id !in items
    requires forall q :: q in items ==> items[q].parentId != Some(id)
    requires it.parentId.None? || it.parentId.value in items
    ensures Acyclic(items[id := it])
  {
    var after := items[id := it];
    forall x, k: nat | x in after && 0 < k
      ensures Up(after, Some(x), k) != Some(x)
    {
      if x == id {
        assert Up(after, Some(x), k) == Up(after, it.parentId, k - 1);
        UpAfterInsert(items, id, it, it.parentId, k - 1);
      } else {
        UpAfterInsert(items, id, it, Some(x), k);
      }
    }
  }

  /** Replacing a stored row by one with the same parent reference leaves
      every walk as it was. */
  lemma {:induction false} UpAfterSameParent(items: map<Id, Item>, id: Id, it: Item, cur: Option<Id>, k: nat)
    requires id in items && it.parentId == items[id].parentId
    ensures Up(items[id := it], cur, k) == Up(items, cur, k)
    decreases k
  {
    if k > 0 {
      assert ParentOf(items[id := it], cur) == ParentOf(items, cur);
      UpAfterSameParent(items, id, it, ParentOf(items, cur), k - 1);
    }
  }

  /** An update that leaves the parent reference alone neither makes nor
      breaks a cycle. */
  lemma SameParentKeepsAcyclic(items: map<Id, Item>, id: Id, it: Item)
    requires id in items && it.parentId == items[id].parentId
    ensures Acyclic(items[id := it]) <==> Acyclic(items)
  {
    var after := items[id := it];
    forall x, k: nat
      ensures Up(after, Some(x), k) == Up(items, Some(x), k)
    {
      UpAfterSameParent(items, id, it, Some(x), k);
    }
    assert forall x :: x in after <==> x in items;
    assert Acyclic(after) ==> Acyclic(items);
    assert Acyclic(items) ==> Acyclic(after);
  }

  /** Removing an item only cuts walks short: where the walk over the smaller
      store still has a reference, it is the one of the original walk. */
  lemma {:induction false} UpAfterRemove(items: map<Id, Item>, id: Id, cur: Option<Id>, k: nat)
    ensures Up(items - {id}, cur, k).Some? ==> Up(items - {id}, cur, k) == Up(items, cur, k)
    decreases k
  {
    if k > 0 {
      var after := items - {id};
      if cur.Some? && cur.value in after {
        assert ParentOf(after, cur) == ParentOf(items, cur);
        UpAfterRemove(items, id, ParentOf(items, cur), k - 1);
      } else {
        assert ParentOf(after, cur) == None;
        UpFromNone(after, k - 1);
      }
    }
  }

  /** The removal that delete_item performs keeps the store acyclic, even
      though it may leave children with a dangling parent reference. */
  lemma RemoveKeepsAcyclic(items: map<Id, Item>, id: Id)
    requires Acyclic(items)
    ensures Acyclic(items - {id})
  {
    var after := items - {id};
    forall x, k: nat | x in after && 0 < k
      ensures Up(after, Some(x), k) != Some(x)
    {
      UpAfterRemove(items, id, Some(x), k);
    }
  }
}
