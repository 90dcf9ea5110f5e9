/**
  `src/Gemini/tree.ts`: the Gemini tree. An empty tree takes any insert as its root; a root that
  still has children refuses removal; a non-root node is cut out by identity, so same-valued
  siblings stay.

  `getAllParents` is written out again in this file, in the same words as AmazonQ's; the model keeps one member per source function here too, each
  a thin use of the shared search and walk in `NaryTree`, so no variant depends on another.
  (AmazonQ v2, a revision of v1, instead reuses v1's members.)
 */
module Gemini {
  import opened Wrappers
  import opened NaryTree

  /** `insert(value, parentValue = null)`: the path of the new node, or `None` for `null`. */
  function Insert<T(==)>(t: Tree<T>, value: T, parentValue: Option<T>): (r: Applied<T, Option<Path>>)
    ensures t.None? ==> r == Applied(Some(Leaf(value)), Some([]))
    ensures t.Some? && parentValue.None? ==> r == Applied(t, None)
    ensures t.Some? && parentValue.Some? ==> InsertedUnderFirst(t.value, parentValue.value, value, r)
  {
    match t
    case None => Applied(Some(Leaf(value)), Some([]))
    case Some(root) =>
      if parentValue.None? then Applied(t, None)
      else InsertUnder(root, parentValue.value, value)
  }

  /**
    What `remove(value)` promises: false, with the tree untouched, when no node holds the value or
    when it is the root and the root still has children; a childless root empties the tree; any
    other first match is cut out alone, its siblings kept in order.
   */
  ghost predicate RemovedByIdentity<T>(t: Tree<T>, v: T, r: Applied<T, bool>)
  {
    && (r.result <==> t.Some? && v in Values(t.value) && (t.value.value != v || |t.value.children| == 0))
    && (!r.result ==> r.tree == t)
    && (r.result && t.value.value == v ==> r.tree.None?)
    && (t.Some? ==> forall p :: IsFirstMatch(t.value, v, p) && |p| > 0 ==>
          r.tree.Some? && SubtreeCut(t.value, r.tree.value, p))
  }

  /** `remove(value)`: whether a node was removed. */
  function Remove<T(==)>(t: Tree<T>, v: T): (r: Applied<T, bool>)
    ensures RemovedByIdentity(t, v, r)
  {
    match t
    case None => Applied(t, false)
    case Some(root) =>
      FindPathFinds(root, v);
      FirstMatchesAreFound(root, v);
      match FindPath(root, v)
      case None => Applied(t, false)
      case Some(p) =>
        if p == [] then
          if |root.children| > 0 then Applied(t, false) else Applied(None, true)
        else
          Applied(Some(CutOut(root, p)), true)
  }

  /** `getAllParents(value)`: find the node, then walk up while there is a parent. */
  method GetAllParents<T(==)>(t: Tree<T>, v: T) returns (parents: seq<T>)
    ensures ParentValuesOfFirst(t, v, parents)
  {
    parents := [];
    var node := Search(t, v);
    if node.Some? {
      parents := WalkParents(t.value, node.value);
      AncestorValuesChain(t.value, node.value);
    }
    if t.Some? {
      FirstMatchesAreFound(t.value, v);
    }
  }

  /**
    `find(value, currentNode = null)`: `currentNode || this.root`, so a given node is searched in
    its own subtree and `null`, the default, falls back to the root.
   */
  function FindFrom<T(==)>(t: Tree<T>, v: T, currentNode: Option<Node<T>>): (r: Option<Node<T>>)
    ensures currentNode.None? ==> FoundNode(t, v, r)
    ensures currentNode.Some? ==> FoundNode(currentNode, v, r)
  {
    SearchNode(if currentNode.Some? then currentNode else t, v)
  }

  /** `find(value)`, as `insert`, `remove` and `getAllParents` call it: from the root. */
  function Find<T(==)>(t: Tree<T>, v: T): (r: Option<Node<T>>)
    ensures FoundNode(t, v, r)
  {
    FindFrom(t, v, None)
  }

  /**
    Removal by identity takes exactly one node's subtree: a value stays findable exactly when some
    node outside the first match's subtree holds it, so a same-valued sibling keeps it findable.
   */
  lemma RemoveKeepsOthersFindable<T>(t: Tree<T>, v: T, p: Path, u: T)
    requires t.Some? && IsFirstMatch(t.value, v, p) && |p| > 0
    ensures Remove(t, v).tree.Some?
    ensures Find(Remove(t, v).tree, u).Some? <==> Values(t.value)[u] > Values(At(t.value, p))[u]
  {
    var after := Remove(t, v).tree.value;
    FindAfterCut(t.value, after, p, u);
    FindPathFinds(after, u);
  }
}
