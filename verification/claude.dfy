/**
  `src/Claude/tree.ts`: the Claude tree. `insert` reports success as a boolean and hangs a node
  whose parent value is absent or falsy under the root; `remove` clears the tree whenever the root
  holds the value and otherwise cuts out the first match by identity; `getAllParents` hands back
  the ancestor nodes themselves.
 */
module Claude {
  import opened Wrappers
  import opened NaryTree

  /**
    `insert(value, parentValue?)`. JavaScript's `!parentValue` is true for `undefined` and for the
    falsy values of `T` (`null`, `0`, `""`, `false`, `NaN`); `isFalsy` says which values of `T`
    those are.
   */
  function Insert<T(==)>(t: Tree<T>, value: T, parentValue: Option<T>, isFalsy: T -> bool): (r: Applied<T, bool>)
    ensures t.None? ==> r == Applied(Some(Leaf(value)), true)
    ensures t.Some? && (parentValue.None? || isFalsy(parentValue.value)) ==>
      r.result && r.tree.Some? && AppendedUnder(t.value, r.tree.value, [], value)
    ensures t.Some? && parentValue.Some? && !isFalsy(parentValue.value) ==>
      && (r.result <==> parentValue.value in Values(t.value))
      && (!r.result ==> r.tree == t)
      && forall p :: IsFirstMatch(t.value, parentValue.value, p) ==>
           r.tree.Some? && AppendedUnder(t.value, r.tree.value, p, value)
  {
    match t
    case None => Applied(Some(Leaf(value)), true)
    case Some(root) =>
      if parentValue.None? || isFalsy(parentValue.value) then
        assert ValidPath(root, []);
        Applied(Some(AddChild(root, [], value)), true)
      else
        var a := InsertUnder(root, parentValue.value, value);
        InsertUnderShape(root, parentValue.value, value);
        Applied(a.tree, a.result.Some?)
  }

  /** `remove(value)`: whether a node was removed. */
  function Remove<T(==)>(t: Tree<T>, v: T): (r: Applied<T, bool>)
    ensures r.result <==> t.Some? && v in Values(t.value)
    ensures !r.result ==> r.tree == t
    ensures t.Some? && t.value.value == v ==> r == Applied(None, true)
    ensures t.Some? ==> forall p :: IsFirstMatch(t.value, v, p) && |p| > 0 ==>
      r.tree.Some? && SubtreeCut(t.value, r.tree.value, p)
  {
    match t
    case None => Applied(t, false)
    case Some(root) =>
      FindPathFinds(root, v);
      FirstMatchesAreFound(root, v);
      if root.value == v then Applied(None, true)
      else
        // With the root ruled out, the match has a parent: the `!nodeToRemove.parent` test never fires.
        match FindPath(root, v)
        case None => Applied(t, false)
        case Some(p) => Applied(Some(CutOut(root, p)), true)
  }

  /** `getAllParents(value)`: the ancestor nodes, collected by walking the parent pointers. */
  method GetAllParents<T(==)>(t: Tree<T>, v: T) returns (parents: seq<Node<T>>)
    ensures t.None? || v !in Values(t.value) ==> parents == []
    ensures t.Some? ==> forall p :: IsFirstMatch(t.value, v, p) ==> IsAncestorChain(t.value, p, parents)
  {
    parents := [];
    var node := Search(t, v);
    if node.Some? {
      var root, p := t.value, node.value;
      var k := |p|;
      while k > 0
        invariant 0 <= k <= |p|
        invariant |parents| == |p| - k
        invariant forall d :: k <= d < |p| ==> ValidPath(root, p[..d]) && parents[|p| - 1 - d] == At(root, p[..d])
      {
        k := k - 1;
        PrefixValid(root, p, k);
        parents := parents + [At(root, p[..k])];
      }
    }
    if t.Some? {
      FirstMatchesAreFound(t.value, v);
    }
  }

  /**
    The `node` argument of `findNode`: left out (or `undefined`), which defaults to the root; an
    explicit `null`; or a node of the tree, whose subtree is searched.
   */
  datatype StartNode<T> = Omitted | Null | Given(node: Node<T>)

  /** `findNode(value, node = this.root)`: only `undefined` takes the default, so `null` finds nothing. */
  function FindNodeFrom<T(==)>(t: Tree<T>, v: T, node: StartNode<T>): (r: Option<Node<T>>)
    ensures node.Null? ==> r.None?
    ensures node.Omitted? ==> FoundNode(t, v, r)
    ensures node.Given? ==> FoundNode(Some(node.node), v, r)
  {
    match node
    case Omitted => SearchNode(t, v)
    case Null => None
    case Given(n) => SearchNode(Some(n), v)
  }

  /** `findNode(value)`, as `insert`, `remove` and `getAllParents` call it: from the root. */
  function FindNode<T(==)>(t: Tree<T>, v: T): (r: Option<Node<T>>)
    ensures FoundNode(t, v, r)
  {
    FindNodeFrom(t, v, Omitted)
  }

  /** The nodes `getAllParents` returns carry exactly the values the other variants return. */
  lemma ParentNodesCarryParentValues<T>(n: Node<T>, p: Path, parents: seq<Node<T>>)
    requires ValidPath(n, p) && IsAncestorChain(n, p, parents)
    ensures ValueList(parents) == AncestorValues(n, p)
  {
    AncestorValuesChain(n, p);
    AncestorValueChainUnique(n, p, ValueList(parents), AncestorValues(n, p));
  }
}
