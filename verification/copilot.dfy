/**
  `src/Copilot/tree.ts`: the Copilot tree. Its nodes keep no parent pointer, so removal searches
  for the parent of the value and `getAllParents` collects ancestors while a recursive search
  unwinds. A missing parent or node is reported by a thrown `Error`, modelled as `Failure`; the
  throw happens before the tree is touched, so a caller holding the tree keeps it as it was.
 */
module Copilot {
  import opened Wrappers
  import opened NaryTree

  /** The two `Error` messages: "Parent node not found" and "Node not found". */
  datatype TreeError = ParentNotFound | NodeNotFound

  /**
    `findNode(value)`, whose argument may be `null`. No node holds `null` (values of `T` are never
    `null` here), so a `null` argument finds nothing.
   */
  function FindNode<T(==)>(t: Tree<T>, v: Option<T>): (r: Option<Node<T>>)
    ensures v.None? ==> r.None?
    ensures v.Some? ==> FoundNode(t, v.value, r)
  {
    match v
    case None => None
    case Some(x) => SearchNode(t, x)
  }

  /** `insertNode(value, parentValue = null)`: the new tree, or the error thrown. */
  function InsertNode<T(==)>(t: Tree<T>, value: T, parentValue: Option<T>): (r: Result<Tree<T>, TreeError>)
    ensures t.None? ==> r == Success(Some(Leaf(value)))
    ensures t.Some? ==> (r.Failure? <==> parentValue.None? || parentValue.value !in Values(t.value))
    ensures r.Failure? ==> r.error == ParentNotFound
    ensures t.Some? && parentValue.Some? ==> forall p :: IsFirstMatch(t.value, parentValue.value, p) ==>
      r.Success? && r.value.Some? && AppendedUnder(t.value, r.value.value, p, value)
  {
    match t
    case None => Success(Some(Leaf(value)))
    case Some(root) =>
      match parentValue
      case None => Failure(ParentNotFound)
      case Some(pv) =>
        var a := InsertUnder(root, pv, value);
        InsertUnderShape(root, pv, value);
        if a.result.None? then Failure(ParentNotFound) else Success(a.tree)
  }

  // ---------------------------------------------------------------------------------------------
  // Parent search

  /**
    `findParentNodeRecursive(node, value)`: the path of the node one of whose children holds
    `value`; each child is tested before the search descends into it.
   */
  function FindParentNodeRecursive<T(==)>(n: Node<T>, v: T): (r: Option<Path>)
    ensures r.Some? ==> ValidPath(n, r.value)
    decreases n, 1
  {
    ParentLoop(n, v, 0)
  }

  /** The `for (const child of node.children)` loop of the parent search, from child `i` on. */
  function ParentLoop<T(==)>(n: Node<T>, v: T, i: nat): (r: Option<Path>)
    requires i <= |n.children|
    ensures r.Some? ==> ValidPath(n, r.value)
    decreases n, 0, |n.children| - i
  {
    if i == |n.children| then None
    else if n.children[i].value == v then Some([])
    else
      match FindParentNodeRecursive(n.children[i], v)
      case Some(q) =>
        StepInto(n, i, q);
        Some([i] + q)
      case None => ParentLoop(n, v, i + 1)
  }

  /** The parent path of a search result, if any. */
  function ParentOfFound(r: Option<Path>): Option<Path>
  {
    match r
    case Some(p) => if |p| > 0 then Some(Parent(p)) else None
    case None => None
  }

  /**
    The parent search visits the non-root nodes in pre-order, so it returns the parent of the
    first non-root match: not the first node in pre-order that has a matching child.
   */
  lemma {:induction false} ParentLoopFindsParentOfFirst<T>(n: Node<T>, v: T, i: nat)
    requires i <= |n.children|
    ensures ParentLoop(n, v, i) == ParentOfFound(FindInChildren(n, v, i))
    decreases n, |n.children| - i
  {
    if i < |n.children| {
      var c := n.children[i];
      if c.value == v {
        assert [i] + [] == [i];
      } else {
        ParentLoopFindsParentOfFirst(c, v, 0);
        match FindInChildren(c, v, 0)
        case Some(q) =>
          assert Parent([i] + q) == [i] + Parent(q);
        case None =>
          ParentLoopFindsParentOfFirst(n, v, i + 1);
      }
    }
  }

  /** `findParentNode(value)` on a tree whose root does not hold the value. */
  lemma FindParentNodeIsParentOfFirst<T>(n: Node<T>, v: T)
    requires n.value != v
    ensures FindParentNodeRecursive(n, v).Some? <==> v in Values(n)
    ensures forall p :: IsFirstMatch(n, v, p) ==> |p| > 0 && FindParentNodeRecursive(n, v) == Some(Parent(p))
  {
    ParentLoopFindsParentOfFirst(n, v, 0);
    FindPathFinds(n, v);
    FirstMatchesAreFound(n, v);
  }

  /**
    A tree where the two readings differ: the root has a child holding 9, yet the search returns
    the node at [0, 0], whose child holding 9 comes first in pre-order.
   */
  lemma ParentSearchIsNotShallowest()
    ensures var n := Node(0, [Node(1, [Node(2, [Leaf(9)])]), Leaf(9)]);
      && n.children[1].value == 9
      && FindParentNodeRecursive(n, 9) == Some([0, 0])
  {
    var n := Node(0, [Node(1, [Node(2, [Leaf(9)])]), Leaf(9)]);
    assert FindParentNodeRecursive(n.children[0].children[0], 9) == Some([]);
    assert [0] + [] == [0];
    assert FindParentNodeRecursive(n.children[0], 9) == Some([0]);
    assert [0] + [0] == [0, 0];
  }

  /** `removeNode(value)`: the new tree, or the error thrown. */
  function RemoveNode<T(==)>(t: Tree<T>, v: T): (r: Result<Tree<T>, TreeError>)
    ensures t.None? ==> r == Success(None)
    ensures t.Some? && t.value.value == v ==> r == Success(None)
    ensures r.Failure? <==> t.Some? && v !in Values(t.value)
    ensures r.Failure? ==> r.error == NodeNotFound
    ensures t.Some? ==> forall p :: IsFirstMatch(t.value, v, p) && |p| > 0 ==>
      r.Success? && r.value.Some? && SiblingsDropped(t.value, r.value.value, Parent(p), v)
  {
    match t
    case None => Success(None)
    case Some(root) =>
      FirstMatchesAreFound(root, v);
      if root.value == v then
        Success(None)
      else
        FindParentNodeIsParentOfFirst(root, v);
        match FindParentNodeRecursive(root, v)
        case None => Failure(NodeNotFound)
        case Some(pp) => Success(Some(DropChildren(root, pp, v)))
  }

  // ---------------------------------------------------------------------------------------------
  // Ancestors collected while the recursion unwinds

  /** Whether `findParentsRecursive` returned true, and the `parents` array it shares, afterwards. */
  datatype Walk<T> = Walk(found: bool, parents: seq<T>)

  /**
    `findParentsRecursive(node, value, parents)`: a node pushes its own value only after one of its
    children reported success, so a failed search leaves the shared array as it was.
   */
  function FindParentsRecursive<T(==)>(n: Node<T>, v: T, parents: seq<T>): (r: Walk<T>)
    ensures !r.found ==> r.parents == parents
    ensures r.found ==> |parents| <= |r.parents| && r.parents[..|parents|] == parents
    decreases n, 1
  {
    if n.value == v then Walk(true, parents) else ParentsLoop(n, v, 0, parents)
  }

  /** The `for (const child of node.children)` loop of `findParentsRecursive`, from child `i` on. */
  function ParentsLoop<T(==)>(n: Node<T>, v: T, i: nat, parents: seq<T>): (r: Walk<T>)
    requires i <= |n.children|
    ensures !r.found ==> r.parents == parents
    ensures r.found ==> |parents| <= |r.parents| && r.parents[..|parents|] == parents
    decreases n, 0, |n.children| - i
  {
    if i == |n.children| then Walk(false, parents)
    else
      var w := FindParentsRecursive(n.children[i], v, parents);
      if w.found then Walk(true, w.parents + [n.value])
      else ParentsLoop(n, v, i + 1, w.parents)
  }

  /** The loop succeeds exactly when the search does, having pushed the match's ancestor values. */
  lemma {:induction false} ParentsLoopCollectsAncestors<T>(n: Node<T>, v: T, i: nat, acc: seq<T>)
    requires i <= |n.children|
    ensures ParentsLoop(n, v, i, acc).found <==> FindInChildren(n, v, i).Some?
    ensures FindInChildren(n, v, i).Some? ==>
      ParentsLoop(n, v, i, acc).parents == acc + AncestorValues(n, FindInChildren(n, v, i).value)
    decreases n, |n.children| - i
  {
    if i < |n.children| {
      var c := n.children[i];
      if c.value == v {
        AncestorValuesStep(n, i, []);
        assert [i] + [] == [i];
      } else {
        ParentsLoopCollectsAncestors(c, v, 0, acc);
        match FindInChildren(c, v, 0)
        case Some(q) =>
          AncestorValuesStep(n, i, q);
          assert acc + AncestorValues(c, q) + [n.value] == acc + (AncestorValues(c, q) + [n.value]);
        case None =>
          ParentsLoopCollectsAncestors(n, v, i + 1, acc);
      }
    }
  }

  /** From the root, the values pushed are the first match's ancestor values, nearest first. */
  lemma RootWalkCollectsAncestors<T>(root: Node<T>, v: T)
    ensures ParentValuesOfFirst(Some(root), v, FindParentsRecursive(root, v, []).parents)
  {
    FindPathFinds(root, v);
    FirstMatchesAreFound(root, v);
    if root.value == v {
      assert AncestorValues(root, []) == [];
      AncestorValuesChain(root, []);
    } else {
      ParentsLoopCollectsAncestors(root, v, 0, []);
      if FindPath(root, v).Some? {
        AncestorValuesChain(root, FindPath(root, v).value);
      }
    }
  }

  /** `getAllParents(value)`: the values pushed by `findParentsRecursive` from the root. */
  function GetAllParents<T(==)>(t: Tree<T>, v: T): (r: seq<T>)
    ensures ParentValuesOfFirst(t, v, r)
  {
    match t
    case None => []
    case Some(root) =>
      RootWalkCollectsAncestors(root, v);
      FindParentsRecursive(root, v, []).parents
  }
}
