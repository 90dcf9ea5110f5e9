/**
  `src/AmazonQ/tree.v2.ts`: the second AmazonQ tree. Only `insert` changed from the first version:
  a root is made only when the tree is empty and no parent is named, and the two mixed cases are
  refused. `remove`, `getAllParents` and `findNode` are the same code as in the first version.
 */
module AmazonQV2 {
  import opened Wrappers
  import opened NaryTree
  import AmazonQV1

  /** `insert(value, parentValue?)`: the path of the new node, or `None` for `null`. */
  function Insert<T(==)>(t: Tree<T>, value: T, parentValue: Option<T>): (r: Applied<T, Option<Path>>)
    ensures t.None? && parentValue.None? ==> r == Applied(Some(Leaf(value)), Some([]))
    ensures t.None? != parentValue.None? ==> r == Applied(t, None)
    ensures t.Some? && parentValue.Some? ==> InsertedUnderFirst(t.value, parentValue.value, value, r)
  {
    if t.None? && parentValue.None? then Applied(Some(Leaf(value)), Some([]))
    else if t.None? && parentValue.Some? then Applied(t, None)
    else if parentValue.None? && t.Some? then Applied(t, None)
    else InsertUnder(t.value, parentValue.value, value)
  }

  /**
    An existing root is never replaced: a refused insert leaves the tree as it was, and an
    accepted one keeps the root value and adds exactly one value.
   */
  lemma InsertNeverReplacesRoot<T>(t: Tree<T>, value: T, parentValue: Option<T>)
    requires t.Some?
    ensures Insert(t, value, parentValue).result.None? ==> Insert(t, value, parentValue).tree == t
    ensures Insert(t, value, parentValue).result.Some? ==>
      && Insert(t, value, parentValue).tree.Some?
      && Insert(t, value, parentValue).tree.value.value == t.value.value
      && Values(Insert(t, value, parentValue).tree.value) == Values(t.value) + multiset{value}
  {
    if parentValue.Some? {
      InsertUnderShape(t.value, parentValue.value, value);
    }
  }

  /** `remove(value)`: identical to the first version. */
  function Remove<T(==)>(t: Tree<T>, v: T): (r: Applied<T, bool>)
    ensures AmazonQV1.RemovedByValue(t, v, r)
  {
    AmazonQV1.Remove(t, v)
  }

  /** `getAllParents(value)`: identical to the first version. */
  method GetAllParents<T(==)>(t: Tree<T>, v: T) returns (parents: seq<T>)
    ensures ParentValuesOfFirst(t, v, parents)
  {
    parents := AmazonQV1.GetAllParents(t, v);
  }

  /** `findNode(value)`: identical to the first version. */
  function FindNode<T(==)>(t: Tree<T>, v: T): (r: Option<Node<T>>)
    ensures FoundNode(t, v, r)
  {
    AmazonQV1.FindNode(t, v)
  }
}
