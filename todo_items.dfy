/**
 The values the to-do item store works with: an item row, the optional values
 a caller may or may not supply, and the errors an operation can end with.
 */
module TodoItems {

  /** Item identifiers. The store hands out 1, 2, 3, ... and never reuses one. */
  type Id = nat

  datatype Option<+T> = None | Some(value: T)

  /** One row of the item table: its id, a name, a completion flag and an
      optional reference to the parent item. */
  datatype Item = Item(itemId: Id, name: string, complete: bool, parentId: Option<Id>)

  /** How an operation fails. NotFound: the item asked for (or, during an
      ancestor walk, one of its ancestors) is not in the store. InvalidParent:
      the parent id supplied to a create or an update is not in the store.
      NoFieldsProvided: an update supplied none of the optional fields. */
  datatype Error = NotFound | InvalidParent | NoFieldsProvided

  datatype Result<+T> = Ok(value: T) | Err(error: Error)
}
