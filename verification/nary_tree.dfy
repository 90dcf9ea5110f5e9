/**
  The structure every variant of the tree shares: an immutable ordered N-ary node, index paths that
  stand in for node references and parent pointers, the pre-order search all variants use, and the
  structural edits (append a child, cut a subtree, drop same-valued siblings) they build on.
 */
module NaryTree {
  import opened Wrappers

  /** A node holds a value and its children in insertion order. */
  datatype Node<T> = Node(value: T, children: seq<Node<T>>)

  /** A tree is empty (`root === null`) or has a root node. */
  type Tree<T> = Option<Node<T>>

  /**
    A node reference, written as the child indices leading to it from the root. The node's parent
    pointer is the path without its last index; the root is the empty path.
   */
  type Path = seq<nat>

  /** The tree an operation leaves behind, together with the value it returns to its caller. */
  datatype Applied<T, R> = Applied(tree: Tree<T>, result: R)

  /** A freshly constructed node: no children, no parent yet. */
  function Leaf<T>(x: T): Node<T>
  {
    Node(x, [])
  }

  // ---------------------------------------------------------------------------------------------
  // Addressing nodes by path

  predicate ValidPath<T>(n: Node<T>, p: Path)
    decreases |p|
  {
    |p| == 0 || (p[0] < |n.children| && ValidPath(n.children[p[0]], p[1..]))
  }

  /** The subtree rooted at the node that `p` addresses. */
  function At<T>(n: Node<T>, p: Path): Node<T>
    requires ValidPath(n, p)
    decreases |p|
  {
    if |p| == 0 then n else At(n.children[p[0]], p[1..])
  }

  function Parent(p: Path): Path
    requires |p| > 0
  {
    p[..|p| - 1]
  }

  function Last(p: Path): nat
    requires |p| > 0
  {
    p[|p| - 1]
  }

  lemma StepInto<T>(n: Node<T>, i: nat, q: Path)
    requires i < |n.children|
    ensures ValidPath(n, [i] + q) <==> ValidPath(n.children[i], q)
    ensures ValidPath(n.children[i], q) ==> At(n, [i] + q) == At(n.children[i], q)
  {
    assert ([i] + q)[1..] == q;
  }

  lemma {:induction false} PrefixValid<T>(n: Node<T>, p: Path, k: nat)
    requires ValidPath(n, p) && k <= |p|
    ensures ValidPath(n, p[..k])
    decreases |p|
  {
    if k > 0 {
      assert p[..k][1..] == p[1..][..k - 1];
      PrefixValid(n.children[p[0]], p[1..], k - 1);
    }
  }

  /** Every node a path reaches holds one of the tree's values. */
  lemma {:induction false} PathValueIn<T>(n: Node<T>, p: Path)
    requires ValidPath(n, p)
    ensures At(n, p).value in Values(n)
    decreases |p|
  {
    if |p| > 0 {
      PathValueIn(n.children[p[0]], p[1..]);
      ValuesOfHas(n.children, p[0]);
    }
  }

  // ---------------------------------------------------------------------------------------------
  // Pre-order

  /**
    `p` is visited strictly before `q` by a pre-order walk (node before its children, children in
    array order): `p` is a proper ancestor of `q`, or `p` takes an earlier child where they part.
   */
  predicate PreorderBefore(p: Path, q: Path)
    decreases |p|
  {
    |q| > 0 && (|p| == 0 || p[0] < q[0] || (p[0] == q[0] && PreorderBefore(p[1..], q[1..])))
  }

  lemma {:induction false} PreorderIrreflexive(p: Path)
    ensures !PreorderBefore(p, p)
    decreases |p|
  {
    if |p| > 0 {
      PreorderIrreflexive(p[1..]);
    }
  }

  /** Pre-order visits any two distinct nodes one after the other. */
  lemma {:induction false} PreorderTotal(p: Path, q: Path)
    ensures p == q || PreorderBefore(p, q) || PreorderBefore(q, p)
    decreases |p|
  {
    if |p| > 0 && |q| > 0 && p[0] == q[0] {
      PreorderTotal(p[1..], q[1..]);
      if p[1..] == q[1..] {
        assert p == [p[0]] + p[1..] && q == [q[0]] + q[1..];
      }
    }
  }

  lemma {:induction false} PreorderTransitive(p: Path, q: Path, r: Path)
    requires PreorderBefore(p, q) && PreorderBefore(q, r)
    ensures PreorderBefore(p, r)
    decreases |p|
  {
    if |p| > 0 && p[0] == q[0] && q[0] == r[0] {
      PreorderTransitive(p[1..], q[1..], r[1..]);
    }
  }

  // ---------------------------------------------------------------------------------------------
  // Values

  /** The values of all nodes of the tree, with multiplicity. */
  function Values<T>(n: Node<T>): multiset<T>
    decreases n
  {
    multiset{n.value} + ValuesOf(n.children)
  }

  function ValuesOf<T>(cs: seq<Node<T>>): multiset<T>
    decreases cs
  {
    if |cs| == 0 then multiset{} else Values(cs[0]) + ValuesOf(cs[1..])
  }

  lemma {:induction false} ValuesOfConcat<T>(a: seq<Node<T>>, b: seq<Node<T>>)
    ensures ValuesOf(a + b) == ValuesOf(a) + ValuesOf(b)
    decreases |a|
  {
    if |a| > 0 {
      assert (a + b)[0] == a[0];
      assert (a + b)[1..] == a[1..] + b;
      ValuesOfConcat(a[1..], b);
    } else {
      assert a + b == b;
    }
  }

  lemma {:induction false} ValuesOfHas<T>(cs: seq<Node<T>>, i: nat)
    requires i < |cs|
    ensures Values(cs[i]) <= ValuesOf(cs)
    decreases i
  {
    if i > 0 {
      ValuesOfHas(cs[1..], i - 1);
    }
  }

  lemma ValuesOfUpdate<T>(cs: seq<Node<T>>, i: nat, x: Node<T>)
    requires i < |cs|
    ensures ValuesOf(cs[i := x]) + Values(cs[i]) == ValuesOf(cs) + Values(x)
  {
    Splice(cs, i);
    Splice(cs[i := x], i);
    assert cs[i := x][..i] == cs[..i] && cs[i := x][i + 1..] == cs[i + 1..];
    ValuesOfSplice(cs[..i], cs[i], cs[i + 1..]);
    ValuesOfSplice(cs[..i], x, cs[i + 1..]);
    Exchange(ValuesOf(cs[..i] + cs[i + 1..]), Values(x), Values(cs[i]));
  }

  lemma Splice<X>(cs: seq<X>, i: nat)
    requires i < |cs|
    ensures cs == cs[..i] + ([cs[i]] + cs[i + 1..])
  {
  }

  lemma Exchange<T>(a: multiset<T>, x: multiset<T>, y: multiset<T>)
    ensures a + x + y == a + y + x
  {
    forall u
      ensures (a + x + y)[u] == (a + y + x)[u]
    {
    }
  }

  lemma CancelCommon<T>(a: multiset<T>, w: multiset<T>, x: multiset<T>, b: multiset<T>, y: multiset<T>)
    requires a + (w + x) == b + (w + y)
    ensures a + x == b + y
  {
    forall u
      ensures (a + x)[u] == (b + y)[u]
    {
      assert (a + (w + x))[u] == (b + (w + y))[u];
    }
  }

  /** Multiset bookkeeping for replacing one part `c` of a whole by `g`, when `g` itself swapped `x` for `s`. */
  lemma SwapOne<T>(v: multiset<T>, a: multiset<T>, c: multiset<T>, whole: multiset<T>,
                   g: multiset<T>, x: multiset<T>, s: multiset<T>)
    requires a + c == whole + g
    requires g + x == c + s
    ensures v + a + x == v + whole + s
  {
    forall u
      ensures (v + a + x)[u] == (v + whole + s)[u]
    {
      assert (a + c)[u] == (whole + g)[u];
      assert (g + x)[u] == (c + s)[u];
    }
  }

  // ---------------------------------------------------------------------------------------------
  // The shared pre-order search (`findNode` / `find` / `search` in every variant)

  /** The first node of a pre-order walk that holds `v`, none earlier. */
  ghost predicate IsFirstMatch<T>(n: Node<T>, v: T, p: Path)
  {
    && ValidPath(n, p)
    && At(n, p).value == v
    && forall q :: ValidPath(n, q) && PreorderBefore(q, p) ==> At(n, q).value != v
  }

  /** Test the node itself, then search its children in order; the first hit wins. */
  function FindPath<T(==)>(n: Node<T>, v: T): (r: Option<Path>)
    ensures r.Some? ==> ValidPath(n, r.value) && At(n, r.value).value == v
    decreases n, 1
  {
    if n.value == v then Some([]) else FindInChildren(n, v, 0)
  }

  /** The `for (const child of node.children)` loop of the search, from child `i` on. */
  function FindInChildren<T(==)>(n: Node<T>, v: T, i: nat): (r: Option<Path>)
    requires i <= |n.children|
    ensures r.Some? ==> |r.value| > 0 && r.value[0] >= i
    ensures r.Some? ==> ValidPath(n, r.value) && At(n, r.value).value == v
    decreases n, 0, |n.children| - i
  {
    if i == |n.children| then None
    else
      match FindPath(n.children[i], v)
      case Some(q) =>
        StepInto(n, i, q);
        Some([i] + q)
      case None => FindInChildren(n, v, i + 1)
  }

  lemma {:induction false} FindPathComplete<T>(n: Node<T>, v: T)
    ensures v in Values(n) ==> FindPath(n, v).Some?
    decreases n, 1
  {
    if n.value != v {
      FindInChildrenComplete(n, v, 0);
      assert n.children[0..] == n.children;
    }
  }

  lemma {:induction false} FindInChildrenComplete<T>(n: Node<T>, v: T, i: nat)
    requires i <= |n.children|
    ensures v in ValuesOf(n.children[i..]) ==> FindInChildren(n, v, i).Some?
    decreases n, 0, |n.children| - i
  {
    if i < |n.children| {
      assert n.children[i..][1..] == n.children[i + 1..];
      FindPathComplete(n.children[i], v);
      FindInChildrenComplete(n, v, i + 1);
    }
  }

  /** The search finds `v` exactly when some node holds it. */
  lemma FindPathFinds<T>(n: Node<T>, v: T)
    ensures FindPath(n, v).Some? <==> v in Values(n)
  {
    FindPathComplete(n, v);
    if FindPath(n, v).Some? {
      PathValueIn(n, FindPath(n, v).value);
    }
  }

  lemma {:induction false} FindPathFirst<T>(n: Node<T>, v: T)
    ensures FindPath(n, v).Some? ==> IsFirstMatch(n, v, FindPath(n, v).value)
    decreases n, 1
  {
    if n.value != v {
      FindInChildrenFirst(n, v, 0);
      var r := FindPath(n, v);
      if r.Some? {
        forall q | ValidPath(n, q) && PreorderBefore(q, r.value)
          ensures At(n, q).value != v
        {
        }
      }
    }
  }

  lemma {:induction false} FindInChildrenFirst<T>(n: Node<T>, v: T, i: nat)
    requires i <= |n.children|
    ensures FindInChildren(n, v, i).Some? ==>
      forall q :: ValidPath(n, q) && |q| > 0 && q[0] >= i && PreorderBefore(q, FindInChildren(n, v, i).value)
        ==> At(n, q).value != v
    decreases n, 0, |n.children| - i
  {
    if i < |n.children| {
      var c := n.children[i];
      var r := FindInChildren(n, v, i);
      match FindPath(c, v)
      case Some(qc) =>
        FindPathFirst(c, v);
        forall q | ValidPath(n, q) && |q| > 0 && q[0] >= i && PreorderBefore(q, r.value)
          ensures At(n, q).value != v
        {
          assert ([i] + qc)[1..] == qc;
          assert q == [q[0]] + q[1..];
          StepInto(n, q[0], q[1..]);
        }
      case None =>
        FindInChildrenFirst(n, v, i + 1);
        FindPathFinds(c, v);
        forall q | ValidPath(n, q) && |q| > 0 && q[0] >= i && r.Some? && PreorderBefore(q, r.value)
          ensures At(n, q).value != v
        {
          if q[0] == i {
            assert q == [i] + q[1..];
            StepInto(n, i, q[1..]);
            PathValueIn(c, q[1..]);
          }
        }
    }
  }

  /** The pre-order first match is unique, so the search is determined by its specification. */
  lemma FirstMatchUnique<T>(n: Node<T>, v: T, p: Path, q: Path)
    requires IsFirstMatch(n, v, p) && IsFirstMatch(n, v, q)
    ensures p == q
  {
    PreorderTotal(p, q);
  }

  lemma FirstMatchIsFindPath<T>(n: Node<T>, v: T, p: Path)
    requires IsFirstMatch(n, v, p)
    ensures FindPath(n, v) == Some(p)
  {
    PathValueIn(n, p);
    FindPathFinds(n, v);
    FindPathFirst(n, v);
    FirstMatchUnique(n, v, p, FindPath(n, v).value);
  }

  /** What `findNode(v)` promises on a whole tree: the pre-order first node holding `v`, or null. */
  ghost predicate FoundFirst<T>(t: Tree<T>, v: T, r: Option<Path>)
  {
    && (r.Some? <==> t.Some? && v in Values(t.value))
    && (r.Some? ==> IsFirstMatch(t.value, v, r.value))
  }

  /** The `search` closure started at the root: the path of the first match, or null. */
  function Search<T(==)>(t: Tree<T>, v: T): (r: Option<Path>)
    ensures FoundFirst(t, v, r)
  {
    match t
    case None => None
    case Some(root) =>
      FindPathFinds(root, v);
      FindPathFirst(root, v);
      FindPath(root, v)
  }

  /** The same promise about the node handed back: null exactly when no node holds `v`. */
  ghost predicate FoundNode<T>(t: Tree<T>, v: T, r: Option<Node<T>>)
  {
    && (r.Some? <==> t.Some? && v in Values(t.value))
    && (t.Some? ==> forall p :: IsFirstMatch(t.value, v, p) ==> r == Some(At(t.value, p)))
  }

  /** The node (with its subtree) that `Search` points at. */
  function SearchNode<T(==)>(t: Tree<T>, v: T): (r: Option<Node<T>>)
    ensures FoundNode(t, v, r)
  {
    match t
    case None => None
    case Some(root) =>
      FindPathFinds(root, v);
      FirstMatchesAreFound(root, v);
      match FindPath(root, v)
      case None => None
      case Some(p) => Some(At(root, p))
  }

  /**
    A search started at a node of the tree sees only that node's subtree: it finds the first
    match below the node, which is a node of the whole tree at the concatenated path.
   */
  lemma SearchBelow<T>(root: Node<T>, p: Path, v: T)
    requires ValidPath(root, p)
    ensures SearchNode(Some(At(root, p)), v).Some? <==> v in Values(At(root, p))
    ensures forall q :: IsFirstMatch(At(root, p), v, q) ==>
      ValidPath(root, p + q) && SearchNode(Some(At(root, p)), v) == Some(At(root, p + q))
  {
    forall q | IsFirstMatch(At(root, p), v, q)
      ensures ValidPath(root, p + q) && SearchNode(Some(At(root, p)), v) == Some(At(root, p + q))
    {
      AtConcat(root, p, q);
    }
  }

  // ---------------------------------------------------------------------------------------------
  // Parent chains

  /** The nodes met by following parent pointers up from the node at `p`: nearest first, root last. */
  function Ancestors<T>(n: Node<T>, p: Path): seq<Node<T>>
    requires ValidPath(n, p)
    decreases |p|
  {
    if |p| == 0 then [] else Ancestors(n.children[p[0]], p[1..]) + [n]
  }

  function ValueList<T>(ns: seq<Node<T>>): (r: seq<T>)
    ensures |r| == |ns| && forall j :: 0 <= j < |ns| ==> r[j] == ns[j].value
  {
    seq(|ns|, j requires 0 <= j < |ns| => ns[j].value)
  }

  function AncestorValues<T>(n: Node<T>, p: Path): seq<T>
    requires ValidPath(n, p)
  {
    ValueList(Ancestors(n, p))
  }

  /**
    `r` lists the nodes on the way from the parent of the node at `p` up to the root: the node at
    depth `k` (the prefix of length `k`) sits at position `|p| - 1 - k`, so the parent comes first
    and the root last, one entry per level of depth.
   */
  ghost predicate IsAncestorChain<T>(n: Node<T>, p: Path, r: seq<Node<T>>)
  {
    && |r| == |p|
    && forall k :: 0 <= k < |p| ==> ValidPath(n, p[..k]) && r[|p| - 1 - k] == At(n, p[..k])
  }

  /** The values of the chain above, in the same order. */
  ghost predicate IsAncestorValueChain<T>(n: Node<T>, p: Path, r: seq<T>)
  {
    && |r| == |p|
    && forall k :: 0 <= k < |p| ==> ValidPath(n, p[..k]) && r[|p| - 1 - k] == At(n, p[..k]).value
  }

  lemma {:induction false} AncestorsChain<T>(n: Node<T>, p: Path)
    requires ValidPath(n, p)
    ensures IsAncestorChain(n, p, Ancestors(n, p))
    decreases |p|
  {
    if |p| > 0 {
      var c, p' := n.children[p[0]], p[1..];
      AncestorsChain(c, p');
      var r := Ancestors(n, p);
      forall k | 0 <= k < |p|
        ensures ValidPath(n, p[..k]) && r[|p| - 1 - k] == At(n, p[..k])
      {
        if k > 0 {
          assert ValidPath(c, p'[..k - 1]) && Ancestors(c, p')[|p'| - 1 - (k - 1)] == At(c, p'[..k - 1]);
          assert p[..k] == [p[0]] + p'[..k - 1];
          StepInto(n, p[0], p'[..k - 1]);
        } else {
          assert p[..k] == [];
        }
      }
    }
  }

  lemma AncestorValuesChain<T>(n: Node<T>, p: Path)
    requires ValidPath(n, p)
    ensures IsAncestorValueChain(n, p, AncestorValues(n, p))
  {
    AncestorsChain(n, p);
    var a := Ancestors(n, p);
    forall k | 0 <= k < |p|
      ensures ValidPath(n, p[..k]) && AncestorValues(n, p)[|p| - 1 - k] == At(n, p[..k]).value
    {
      assert a[|p| - 1 - k] == At(n, p[..k]);
    }
  }

  /** The chain determines the list: two lists that both satisfy it are equal. */
  lemma AncestorValueChainUnique<T>(n: Node<T>, p: Path, r: seq<T>, r': seq<T>)
    requires IsAncestorValueChain(n, p, r) && IsAncestorValueChain(n, p, r')
    ensures r == r'
  {
    forall j | 0 <= j < |r|
      ensures r[j] == r'[j]
    {
      var k := |p| - 1 - j;
      assert ValidPath(n, p[..k]) && r[|p| - 1 - k] == At(n, p[..k]).value;
    }
  }

  /** The parent chain one level down: entering child `i` puts this node at the end of the chain. */
  lemma AncestorValuesStep<T>(n: Node<T>, i: nat, q: Path)
    requires i < |n.children| && ValidPath(n.children[i], q)
    ensures ValidPath(n, [i] + q)
    ensures AncestorValues(n, [i] + q) == AncestorValues(n.children[i], q) + [n.value]
  {
    StepInto(n, i, q);
    assert ([i] + q)[1..] == q;
  }

  /**
    What `getAllParents(v)` promises when it returns values: nothing when no node holds `v`, else the
    values on the way up from the pre-order first match, nearest parent first and the root last.
   */
  ghost predicate ParentValuesOfFirst<T>(t: Tree<T>, v: T, r: seq<T>)
  {
    && (t.None? || v !in Values(t.value) ==> r == [])
    && (t.Some? ==> forall p :: IsFirstMatch(t.value, v, p) ==> IsAncestorValueChain(t.value, p, r))
  }

  /**
    The `while (currentNode)` walk up the parent pointers, collecting each ancestor's value: the
    walk starts at the parent (the path minus its last index) and stops after the root.
   */
  method WalkParents<T>(n: Node<T>, p: Path) returns (parents: seq<T>)
    requires ValidPath(n, p)
    ensures parents == AncestorValues(n, p)
  {
    parents := [];
    var k := |p|;
    while k > 0
      invariant 0 <= k <= |p|
      invariant |parents| == |p| - k
      invariant forall d :: k <= d < |p| ==> ValidPath(n, p[..d]) && parents[|p| - 1 - d] == At(n, p[..d]).value
    {
      k := k - 1;
      PrefixValid(n, p, k);
      parents := parents + [At(n, p[..k]).value];
    }
    AncestorValuesChain(n, p);
    AncestorValueChainUnique(n, p, parents, AncestorValues(n, p));
  }

  // ---------------------------------------------------------------------------------------------
  // Structural edits

  /** The tree with the subtree at `p` replaced by `s`. */
  function Graft<T>(n: Node<T>, p: Path, s: Node<T>): (r: Node<T>)
    requires ValidPath(n, p)
    ensures ValidPath(r, p) && At(r, p) == s
    decreases |p|
  {
    if |p| == 0 then s
    else Node(n.value, n.children[p[0] := Graft(n.children[p[0]], p[1..], s)])
  }

  lemma {:induction false} GraftOutside<T>(n: Node<T>, p: Path, s: Node<T>)
    requires ValidPath(n, p)
    ensures forall q :: ValidPath(n, q) && !(p <= q) ==>
      ValidPath(Graft(n, p, s), q) && At(Graft(n, p, s), q).value == At(n, q).value
    decreases |p|
  {
    if |p| > 0 {
      var i, c, p' := p[0], n.children[p[0]], p[1..];
      var r := Graft(n, p, s);
      GraftOutside(c, p', s);
      forall q | ValidPath(n, q) && !(p <= q)
        ensures ValidPath(r, q) && At(r, q).value == At(n, q).value
      {
        if |q| > 0 {
          assert q == [q[0]] + q[1..];
          StepInto(n, q[0], q[1..]);
          StepInto(r, q[0], q[1..]);
          if q[0] == i {
            assert p == [i] + p';
          }
        }
      }
    }
  }

  lemma {:induction false} GraftValues<T>(n: Node<T>, p: Path, s: Node<T>)
    requires ValidPath(n, p)
    ensures Values(Graft(n, p, s)) + Values(At(n, p)) == Values(n) + Values(s)
    decreases |p|
  {
    if |p| > 0 {
      var i, c, p' := p[0], n.children[p[0]], p[1..];
      var g := Graft(c, p', s);
      GraftValues(c, p', s);
      ValuesOfUpdate(n.children, i, g);
      var r := Graft(n, p, s);
      assert r == Node(n.value, n.children[i := g]);
      assert Values(r) == multiset{n.value} + ValuesOf(n.children[i := g]);
      assert At(n, p) == At(c, p');
      assert Values(n) == multiset{n.value} + ValuesOf(n.children);
      SwapOne(multiset{n.value}, ValuesOf(n.children[i := g]), Values(c), ValuesOf(n.children),
              Values(g), Values(At(c, p')), Values(s));
    }
  }

  lemma GraftChildrenValues<T>(n: Node<T>, pp: Path, kids: seq<Node<T>>)
    requires ValidPath(n, pp)
    ensures Values(Graft(n, pp, Node(At(n, pp).value, kids))) + ValuesOf(At(n, pp).children)
         == Values(n) + ValuesOf(kids)
  {
    var s := Node(At(n, pp).value, kids);
    var r := Graft(n, pp, s);
    GraftValues(n, pp, s);
    var w := multiset{At(n, pp).value};
    assert Values(At(n, pp)) == w + ValuesOf(At(n, pp).children);
    assert Values(s) == w + ValuesOf(kids);
    CancelCommon(Values(r), w, ValuesOf(At(n, pp).children), Values(n), ValuesOf(kids));
  }

  /**
    `after` is `before` with the children of the node at `pp` replaced by `kids`: that node keeps
    its value, and every node outside its subtree keeps its path and its value.
   */
  ghost predicate Rebuilt<T>(before: Node<T>, after: Node<T>, pp: Path, kids: seq<Node<T>>)
  {
    && ValidPath(before, pp)
    && ValidPath(after, pp)
    && At(after, pp) == Node(At(before, pp).value, kids)
    && forall q :: ValidPath(before, q) && !(pp <= q) ==>
         ValidPath(after, q) && At(after, q).value == At(before, q).value
  }

  function Rebuild<T>(n: Node<T>, pp: Path, kids: seq<Node<T>>): (r: Node<T>)
    requires ValidPath(n, pp)
    ensures Rebuilt(n, r, pp, kids)
    ensures Values(r) + ValuesOf(At(n, pp).children) == Values(n) + ValuesOf(kids)
  {
    var s := Node(At(n, pp).value, kids);
    GraftOutside(n, pp, s);
    GraftChildrenValues(n, pp, kids);
    Graft(n, pp, s)
  }

  /** `after` is `before` with one fresh node holding `x` appended last under the node at `p`. */
  ghost predicate AppendedUnder<T>(before: Node<T>, after: Node<T>, p: Path, x: T)
  {
    && ValidPath(before, p)
    && Rebuilt(before, after, p, At(before, p).children + [Leaf(x)])
    && ValidPath(after, NewChild(before, p))
    && At(after, NewChild(before, p)) == Leaf(x)
    && Values(after) == Values(before) + multiset{x}
  }

  /** Where a child appended under the node at `p` lands: one past its current last child. */
  function NewChild<T>(n: Node<T>, p: Path): Path
    requires ValidPath(n, p)
  {
    p + [|At(n, p).children|]
  }

  /** `parentNode.children.push(newNode)`. */
  function AddChild<T>(n: Node<T>, p: Path, x: T): (r: Node<T>)
    requires ValidPath(n, p)
    ensures AppendedUnder(n, r, p, x)
  {
    var kids := At(n, p).children + [Leaf(x)];
    var r := Rebuild(n, p, kids);
    ValuesOfAppend(At(n, p).children, Leaf(x));
    CancelLeft(Values(r), ValuesOf(At(n, p).children), Values(n), multiset{x});
    AtConcat(r, p, [|At(n, p).children|]);
    r
  }

  lemma {:induction false} AtConcat<T>(n: Node<T>, a: Path, b: Path)
    requires ValidPath(n, a)
    ensures ValidPath(n, a + b) <==> ValidPath(At(n, a), b)
    ensures ValidPath(n, a + b) ==> At(n, a + b) == At(At(n, a), b)
    decreases |a|
  {
    if |a| > 0 {
      assert (a + b)[1..] == a[1..] + b;
      AtConcat(n.children[a[0]], a[1..], b);
    } else {
      assert a + b == b;
    }
  }

  /** The parent of a non-root node is a node, and the node is one of its children. */
  lemma ParentStep<T>(n: Node<T>, p: Path)
    requires |p| > 0 && ValidPath(n, p)
    ensures ValidPath(n, Parent(p)) && Last(p) < |At(n, Parent(p)).children|
    ensures At(At(n, Parent(p)), [Last(p)]) == At(n, p)
    ensures At(At(n, Parent(p)).children[Last(p)], []) == At(n, p)
  {
    PrefixValid(n, p, |p| - 1);
    assert p == Parent(p) + [Last(p)];
    AtConcat(n, Parent(p), [Last(p)]);
    assert [Last(p)][1..] == [];
  }

  lemma ValuesOfAppend<T>(cs: seq<Node<T>>, c: Node<T>)
    ensures ValuesOf(cs + [c]) == ValuesOf(cs) + Values(c)
  {
    ValuesOfConcat(cs, [c]);
    assert [c][1..] == [];
  }

  lemma ValuesOfWithout<T>(cs: seq<Node<T>>, i: nat)
    requires i < |cs|
    ensures ValuesOf(Without(cs, i)) + Values(cs[i]) == ValuesOf(cs)
  {
    Splice(cs, i);
    ValuesOfSplice(cs[..i], cs[i], cs[i + 1..]);
  }

  lemma ValuesOfSplice<T>(head: seq<Node<T>>, x: Node<T>, tail: seq<Node<T>>)
    ensures ValuesOf(head + tail) + Values(x) == ValuesOf(head + ([x] + tail))
  {
    var mid := [x] + tail;
    assert mid[0] == x && mid[1..] == tail;
    ValuesOfConcat(head, tail);
    ValuesOfConcat(head, mid);
    MiddleOut(ValuesOf(head), Values(x), ValuesOf(tail));
  }

  lemma MiddleOut<T>(a: multiset<T>, x: multiset<T>, b: multiset<T>)
    ensures a + b + x == a + (x + b)
  {
    forall u
      ensures (a + b + x)[u] == (a + (x + b))[u]
    {
    }
  }

  lemma CancelLeft<T>(a: multiset<T>, k: multiset<T>, b: multiset<T>, d: multiset<T>)
    requires a + k == b + (k + d)
    ensures a == b + d
  {
    forall u
      ensures a[u] == (b + d)[u]
    {
      assert (a + k)[u] == (b + (k + d))[u];
    }
  }

  lemma CancelRight<T>(a: multiset<T>, k: multiset<T>, y: multiset<T>, b: multiset<T>)
    requires a + (k + y) == b + k
    ensures a + y == b
  {
    forall u
      ensures (a + y)[u] == b[u]
    {
      assert (a + (k + y))[u] == (b + k)[u];
    }
  }

  /** The children `cs` without the one at index `i`. */
  function Without<T>(cs: seq<Node<T>>, i: nat): (r: seq<Node<T>>)
    requires i < |cs|
    ensures |r| == |cs| - 1
    ensures forall j :: 0 <= j < i ==> r[j] == cs[j]
    ensures forall j :: i <= j < |r| ==> r[j] == cs[j + 1]
  {
    cs[..i] + cs[i + 1..]
  }

  /**
    `after` is `before` with the node at the non-root path `p` unlinked from its parent's children,
    taking its whole subtree with it and no other node.
   */
  ghost predicate SubtreeCut<T>(before: Node<T>, after: Node<T>, p: Path)
  {
    && |p| > 0
    && ValidPath(before, p)
    && ValidPath(before, Parent(p))
    && Last(p) < |At(before, Parent(p)).children|
    && Rebuilt(before, after, Parent(p), Without(At(before, Parent(p)).children, Last(p)))
    && Values(after) + Values(At(before, p)) == Values(before)
  }

  /** `parent.children.filter(child => child !== nodeToRemove)`: removal by node identity. */
  function CutOut<T>(n: Node<T>, p: Path): (r: Node<T>)
    requires |p| > 0 && ValidPath(n, p)
    ensures SubtreeCut(n, r, p)
  {
    var pp, i := Parent(p), Last(p);
    ParentStep(n, p);
    var cs := At(n, pp).children;
    var r := Rebuild(n, pp, Without(cs, i));
    ValuesOfWithout(cs, i);
    CancelRight(Values(r), ValuesOf(Without(cs, i)), Values(cs[i]), Values(n));
    r
  }

  /** The children with value different from `v`, in their original order. */
  function Keep<T(==)>(cs: seq<Node<T>>, v: T): (r: seq<Node<T>>)
    ensures forall j :: 0 <= j < |r| ==> r[j].value != v
    ensures (forall j :: 0 <= j < |cs| ==> cs[j].value != v) ==> r == cs
    ensures |r| <= |cs|
  {
    if |cs| == 0 then []
    else if cs[0].value != v then [cs[0]] + Keep(cs[1..], v)
    else Keep(cs[1..], v)
  }

  /** The children with value `v`, in their original order. */
  function Drop<T(==)>(cs: seq<Node<T>>, v: T): (r: seq<Node<T>>)
    ensures forall j :: 0 <= j < |r| ==> r[j].value == v
    ensures |r| + |Keep(cs, v)| == |cs|
  {
    if |cs| == 0 then []
    else if cs[0].value == v then [cs[0]] + Drop(cs[1..], v)
    else Drop(cs[1..], v)
  }

  /** Filtering distributes over concatenation: the kept siblings stay in their relative order. */
  lemma {:induction false} KeepConcat<T>(a: seq<Node<T>>, b: seq<Node<T>>, v: T)
    ensures Keep(a + b, v) == Keep(a, v) + Keep(b, v)
    decreases |a|
  {
    if |a| > 0 {
      assert (a + b)[1..] == a[1..] + b;
      KeepConcat(a[1..], b, v);
    } else {
      assert a + b == b;
    }
  }

  lemma {:induction false} KeepDropValues<T>(cs: seq<Node<T>>, v: T)
    ensures ValuesOf(Keep(cs, v)) + ValuesOf(Drop(cs, v)) == ValuesOf(cs)
    decreases |cs|
  {
    if |cs| > 0 {
      KeepDropValues(cs[1..], v);
      var x := [cs[0]];
      assert x[1..] == [];
      if cs[0].value != v {
        ValuesOfConcat(x, Keep(cs[1..], v));
      } else {
        ValuesOfConcat(x, Drop(cs[1..], v));
      }
    }
  }

  /**
    `filter` keeps order: a kept child lands right after the kept children that came before it.
   */
  lemma KeepPosition<T>(cs: seq<Node<T>>, v: T, j: nat)
    requires j < |cs| && cs[j].value != v
    ensures |Keep(cs[..j], v)| < |Keep(cs, v)|
    ensures Keep(cs, v)[|Keep(cs[..j], v)|] == cs[j]
  {
    Splice(cs, j);
    KeepConcat(cs[..j], [cs[j]] + cs[j + 1..], v);
    KeepConcat([cs[j]], cs[j + 1..], v);
    assert Keep([cs[j]], v) == [cs[j]] by {
      assert [cs[j]][1..] == [];
    }
  }

  /** Every child holding `v` is among the dropped ones. */
  lemma {:induction false} DropHas<T>(cs: seq<Node<T>>, v: T, i: nat)
    requires i < |cs| && cs[i].value == v
    ensures Values(cs[i]) <= ValuesOf(Drop(cs, v))
    decreases i
  {
    var x := [cs[0]];
    assert x[1..] == [];
    if i == 0 {
      ValuesOfConcat(x, Drop(cs[1..], v));
    } else {
      DropHas(cs[1..], v, i - 1);
      if cs[0].value == v {
        ValuesOfConcat(x, Drop(cs[1..], v));
      }
    }
  }

  /**
    `after` is `before` with every child of the node at `pp` whose value is `v` unlinked, subtrees
    included; the other children stay, in order.
   */
  ghost predicate SiblingsDropped<T>(before: Node<T>, after: Node<T>, pp: Path, v: T)
  {
    && ValidPath(before, pp)
    && Rebuilt(before, after, pp, Keep(At(before, pp).children, v))
    && Values(after) + ValuesOf(Drop(At(before, pp).children, v)) == Values(before)
  }

  /** `parent.children.filter(child => child.value !== value)`: removal by value. */
  function DropChildren<T(==)>(n: Node<T>, pp: Path, v: T): (r: Node<T>)
    requires ValidPath(n, pp)
    ensures SiblingsDropped(n, r, pp, v)
  {
    var cs := At(n, pp).children;
    var r := Rebuild(n, pp, Keep(cs, v));
    KeepDropValues(cs, v);
    CancelRight(Values(r), ValuesOf(Keep(cs, v)), ValuesOf(Drop(cs, v)), Values(n));
    r
  }

  // ---------------------------------------------------------------------------------------------
  // Consequences shared by the variants

  /** Every first match is the one the search returns (the search is unique by its specification). */
  lemma FirstMatchesAreFound<T>(n: Node<T>, v: T)
    ensures forall p :: IsFirstMatch(n, v, p) ==> FindPath(n, v) == Some(p)
  {
    forall p | IsFirstMatch(n, v, p)
      ensures FindPath(n, v) == Some(p)
    {
      FirstMatchIsFindPath(n, v, p);
    }
  }

  /**
    What a successful `findNode(parentValue)` followed by `parentNode.children.push(newNode)`
    promises: a parent value held by no node leaves the tree as it was and returns null; otherwise
    the new node goes last under the pre-order first match and its path is returned.
   */
  ghost predicate InsertedUnderFirst<T>(root: Node<T>, pv: T, x: T, r: Applied<T, Option<Path>>)
  {
    && (pv !in Values(root) ==> r == Applied(Some(root), None))
    && forall p :: IsFirstMatch(root, pv, p) ==>
         && r.tree.Some?
         && AppendedUnder(root, r.tree.value, p, x)
         && r.result == Some(NewChild(root, p))
  }

  function InsertUnder<T(==)>(root: Node<T>, pv: T, x: T): (r: Applied<T, Option<Path>>)
    ensures InsertedUnderFirst(root, pv, x, r)
  {
    FindPathFinds(root, pv);
    FirstMatchesAreFound(root, pv);
    match FindPath(root, pv)
    case None => Applied(Some(root), None)
    case Some(p) => Applied(Some(AddChild(root, p, x)), Some(NewChild(root, p)))
  }

  /**
    The shape of every insert under a parent value: the parent is missing exactly when the tree
    comes back as it was; otherwise the root keeps its value and exactly one value is added.
   */
  lemma InsertUnderShape<T>(root: Node<T>, pv: T, x: T)
    ensures InsertUnder(root, pv, x).tree.Some?
    ensures InsertUnder(root, pv, x).result.None? <==> pv !in Values(root)
    ensures InsertUnder(root, pv, x).result.None? ==> InsertUnder(root, pv, x).tree == Some(root)
    ensures InsertUnder(root, pv, x).result.Some? ==>
      && InsertUnder(root, pv, x).tree.value.value == root.value
      && Values(InsertUnder(root, pv, x).tree.value) == Values(root) + multiset{x}
  {
    FindPathFinds(root, pv);
    FindPathFirst(root, pv);
    var r := InsertUnder(root, pv, x);
    if r.result.Some? {
      var p := FindPath(root, pv).value;
      assert AppendedUnder(root, r.tree.value, p, x);
      assert ValidPath(root, []) && ValidPath(r.tree.value, []);
      if p == [] {
        assert At(r.tree.value, []) == Node(At(root, []).value, At(root, []).children + [Leaf(x)]);
      } else {
        assert !(p <= []);
      }
    }
  }

  /**
    The new node's parent pointer is the node it went under: its parent chain is that node's value
    followed by that node's own parent chain.
   */
  lemma AppendedParents<T>(before: Node<T>, after: Node<T>, p: Path, x: T)
    requires AppendedUnder(before, after, p, x)
    ensures AncestorValues(after, NewChild(before, p)) == [At(before, p).value] + AncestorValues(before, p)
  {
    var q := NewChild(before, p);
    var up := AncestorValues(before, p);
    var r := [At(before, p).value] + up;
    AncestorValuesChain(before, p);
    forall k | 0 <= k < |q|
      ensures ValidPath(after, q[..k]) && r[|q| - 1 - k] == At(after, q[..k]).value
    {
      assert q[..k] == p[..k];
      if k < |p| {
        PrefixValid(before, p, k);
        assert !(p <= p[..k]);
        assert r[|q| - 1 - k] == up[|p| - 1 - k];
      } else {
        assert p[..k] == p;
      }
    }
    assert IsAncestorValueChain(after, q, r);
    AncestorValuesChain(after, q);
    AncestorValueChainUnique(after, q, r, AncestorValues(after, q));
  }

  /** After a subtree is cut, a value is still found exactly when some node outside the subtree holds it. */
  lemma FindAfterCut<T>(before: Node<T>, after: Node<T>, p: Path, u: T)
    requires SubtreeCut(before, after, p)
    ensures FindPath(after, u).Some? <==> Values(before)[u] > Values(At(before, p))[u]
  {
    FindPathFinds(after, u);
    assert (Values(after) + Values(At(before, p)))[u] == Values(before)[u];
  }

  /**
    After same-valued siblings are dropped, a value is still found exactly when some node outside
    the dropped subtrees holds it.
   */
  lemma FindAfterDrop<T>(before: Node<T>, after: Node<T>, pp: Path, v: T, u: T)
    requires SiblingsDropped(before, after, pp, v)
    ensures FindPath(after, u).Some? <==> Values(before)[u] > ValuesOf(Drop(At(before, pp).children, v))[u]
  {
    FindPathFinds(after, u);
    assert (Values(after) + ValuesOf(Drop(At(before, pp).children, v)))[u] == Values(before)[u];
  }

  /** The node that holds `v` is itself among the siblings dropped for `v`. */
  lemma MatchIsDropped<T>(n: Node<T>, p: Path, v: T)
    requires |p| > 0 && ValidPath(n, p) && At(n, p).value == v
    ensures ValidPath(n, Parent(p))
    ensures Values(At(n, p)) <= ValuesOf(Drop(At(n, Parent(p)).children, v))
  {
    ParentStep(n, p);
    DropHas(At(n, Parent(p)).children, v, Last(p));
  }
}
