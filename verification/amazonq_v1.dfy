/**
  `src/AmazonQ/tree.v1.ts`: the first AmazonQ tree. An insert without a parent value (or into an
  empty tree) makes a fresh root and discards whatever tree there was; removal of a non-root node
  filters its parent's children by value, so same-valued siblings go with it.
 */
module AmazonQV1 {
  import opened Wrappers
  import opened NaryTree

  /** `insert(value, parentValue?)`: the path of the new node, or `None` for `null`. */
  function Insert<T(==)>(t: Tree<T>, value: T, parentValue: Option<T>): (r: Applied<T, Option<Path>>)
    ensures t.None? || parentValue.None? ==> r == Applied(Some(Leaf(value)), Some([]))
    ensures t.Some? && parentValue.Some? ==> InsertedUnderFirst(t.value, parentValue.value, value, r)
  {
    if t.None? || parentValue.None? then Applied(Some(Leaf(value)), Some([]))
    else InsertUnder(t.value, parentValue.value, value)
  }

  /**
    What `remove(value)` promises: false, with the tree untouched, exactly when no node holds the
    value; a root match empties the tree; any other first match has its parent's children filtered
    by value, so every same-valued sibling goes too.
   */
  ghost predicate RemovedByValue<T>(t: Tree<T>, v: T, r: Applied<T, bool>)
  {
    && (!r.result <==> t.None? || v !in Values(t.value))
    && (!r.result ==> r.tree == t)
    && (t.Some? && t.value.value == v ==> r == Applied(None, true))
    && (t.Some? ==> forall p :: IsFirstMatch(t.value, v, p) && |p| > 0 ==>
          r.tree.Some? && SiblingsDropped(t.value, r.tree.value, Parent(p), v))
  }

  /** `remove(value)`: whether a node was found and removed. */
  function Remove<T(==)>(t: Tree<T>, v: T): (r: Applied<T, bool>)
    ensures RemovedByValue(t, v, r)
  {
    match t
    case None => Applied(t, false)
    case Some(root) =>
      FirstMatchesAreFound(root, v);
      FindPathFinds(root, v);
      match FindPath(root, v)
      case None => Applied(t, false)
      case Some(p) =>
        if |p| == 0 then Applied(None, true)
        else
          ParentStep(root, p);
          Applied(Some(DropChildren(root, Parent(p), v)), true)
  }

  /** `getAllParents(value)`: find the node, then walk its parent pointers up to the root. */
  method GetAllParents<T(==)>(t: Tree<T>, v: T) returns (parents: seq<T>)
    ensures ParentValuesOfFirst(t, v, parents)
  {
    parents := [];
    var node := Search(t, v);
    if node.Some? {
      parents := WalkParents(t.value, node.value);
      AncestorValuesChain(t.value, node.value);
    }
    if t.Some? {
      FirstMatchesAreFound(t.value, v);
    }
  }

  /** `findNode(value)`: the pre-order first node holding the value, or `None` for `null`. */
  function FindNode<T(==)>(t: Tree<T>, v: T): (r: Option<Node<T>>)
    ensures FoundNode(t, v, r)
  {
    SearchNode(t, v)
  }

  /**
    Removing a non-root value hides every value held only inside the matched node's subtree and
    keeps findable every value held by some node outside the dropped siblings.
   */
  lemma RemoveHidesOnlySubtrees<T>(t: Tree<T>, v: T, p: Path, u: T)
    requires t.Some? && IsFirstMatch(t.value, v, p) && |p| > 0
    ensures Remove(t, v).tree.Some?
    ensures Values(t.value)[u] == Values(At(t.value, p))[u] ==> FindNode(Remove(t, v).tree, u).None?
    ensures Values(t.value)[u] > ValuesOf(Drop(At(t.value, Parent(p)).children, v))[u] ==>
      FindNode(Remove(t, v).tree, u).Some?
  {
    var after := Remove(t, v).tree.value;
    MatchIsDropped(t.value, p, v);
    FindAfterDrop(t.value, after, Parent(p), v, u);
    FindPathFinds(after, u);
    assert Values(At(t.value, p))[u] <= ValuesOf(Drop(At(t.value, Parent(p)).children, v))[u];
  }
}
