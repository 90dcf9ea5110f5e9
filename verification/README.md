# Five N-ary trees, one model

The repository implements one data structure five times: a generic, in-memory, ordered N-ary
tree. The implementations are AmazonQ v1, AmazonQ v2, Gemini, Claude and Copilot. Each one can:

- insert a value under the first node that holds a given parent value;
- remove a node together with its subtree;
- find the first node that holds a value;
- list a node's ancestors, nearest first.

This project models all five in Dafny. The trees become immutable values, and each operation
becomes a pure function or method that returns the new tree.

- `wrappers.dfy`: `Option`, which stands for `null` or a missing argument, and `Result`, which
  stands for a thrown `Error`.
- `nary_tree.dfy` (module `NaryTree`): the shared vocabulary.
  - Data: `Node(value, children)` and `Tree = Option<Node>`.
  - Paths: a path (`seq<nat>`, child indices from the root) stands in for node identity, and the
    path minus its last index stands in for the parent pointer.
  - Search: every variant runs the same pre-order search, node first and then its children in
    array order. It is modelled once (`FindPath`) and proved equal to its specification
    `IsFirstMatch`: a node holding the value, with no node earlier in pre-order holding it.
  - Edits: appending a child, cutting one child out (by identity), and filtering children by
    value. Each is specified by what it changes and what it keeps: paths and values outside the
    edited node, and the multiset of values in the tree.
- `amazonq_v1.dfy`, `amazonq_v2.dfy`, `gemini.dfy`, `claude.dfy`, `copilot.dfy`: one module per
  source file, with that file's insert, remove, getAllParents and find.
- `scenarios.dfy`: trees from the test suites worked through the model. It also shows the point
  where the variants part ways: which siblings a removal takes along.

How the variants differ at the edges:

| edge | AmazonQ v1 | AmazonQ v2 | Gemini | Claude | Copilot |
|---|---|---|---|---|---|
| insert, no parent, non-empty tree | replaces the tree by a new root | null | null | appended under the root | throws "Parent node not found" |
| insert into an empty tree with a parent named | new root | null | new root | new root | new root |
| remove the root while it has children | tree emptied | tree emptied | refused (false) | tree emptied | tree emptied |
| remove a non-root match | every sibling holding the value | every sibling holding the value | that node only | that node only | every sibling holding the value |

How the variants compare, beyond the table above:

- Identity removal: Gemini and Claude excise just the matched node. AmazonQ and Copilot also
  drop every same-valued sibling (`Scenarios.TwinSiblings`). So "removing one of two equal
  siblings leaves the other" holds for Gemini and Claude only.
- An insert with no parent into a non-empty tree: AmazonQ v2 and Gemini return `null`, and Copilot
  throws "Parent node not found"; all three leave the tree as it was. AmazonQ v1 replaces the tree
  with the new node, and Claude hangs the new node under the root.
- A parent named for an empty tree: only AmazonQ v2 refuses it.
- Every lookup is by value through the pre-order first match, so `getAllParents(v)` describes the
  first node holding `v`. For a value held by several nodes, the other nodes' depths do not show.

## Model

| member | source | states |
|---|---|---|
| `NaryTree.FindPath` | src/AmazonQ/tree.v1.ts:93-107 | the recursive `search`: a returned path leads to a node holding the value |
| `NaryTree.FindInChildren` | src/AmazonQ/tree.v1.ts:98-104 | the child loop of the search: a hit lies inside a child at or after the current index and holds the value |
| `NaryTree.FindPathFinds` | src/AmazonQ/tree.v1.ts:93-107 | the search finds something exactly when some node of the tree holds the value |
| `NaryTree.FindPathFirst` | src/AmazonQ/tree.v1.ts:94-104 | what the search returns is the pre-order first match: no node before it in pre-order (ancestors, earlier siblings' subtrees) holds the value |
| `NaryTree.FirstMatchUnique` | src/AmazonQ/tree.v1.ts:94-104 | two pre-order first matches are the same node, so the specification pins the search down |
| `NaryTree.FirstMatchIsFindPath` | src/AmazonQ/tree.v1.ts:93-107 | every path meeting the first-match specification is exactly what the search returns |
| `NaryTree.PreorderTotal` | src/AmazonQ/tree.v1.ts:94-104 | any two distinct nodes are ordered by the walk |
| `NaryTree.PreorderTransitive` | src/AmazonQ/tree.v1.ts:94-104 | the walk order is transitive |
| `NaryTree.PreorderIrreflexive` | src/AmazonQ/tree.v1.ts:94-104 | no node comes before itself in the walk |
| `NaryTree.Search` | src/AmazonQ/tree.v1.ts:87-110 | `findNode`: null on an empty tree or when no node holds the value, else the pre-order first match |
| `NaryTree.SearchNode` | src/AmazonQ/tree.v1.ts:87-110 | the same, as the node handed back: null exactly when the value is absent, else the subtree at the first match |
| `NaryTree.SearchBelow` | src/Gemini/tree.ts:87-106 | a search started at a node of the tree finds a value exactly when that node's subtree holds it, and returns the subtree's first match, which is the tree's node at the concatenated path |
| `NaryTree.AncestorsChain` | src/Claude/tree.ts:79-85 | the reference chain of ancestor nodes: one per level, the parent first and the root last |
| `NaryTree.AncestorValuesChain` | src/AmazonQ/tree.v1.ts:76-81 | the reference chain of ancestor values holds, at each position, the value of the ancestor at that depth counted from the end |
| `NaryTree.AncestorValueChainUnique` | src/AmazonQ/tree.v1.ts:76-81 | a node has exactly one ancestor value chain |
| `NaryTree.AncestorValuesStep` | src/Copilot/tree.ts:59-63 | stepping into child `i` appends the current node's value after the child's own chain, which is the order the Copilot recursion pushes in |
| `NaryTree.WalkParents` | src/AmazonQ/tree.v1.ts:76-81 | the `while (currentNode)` loop up the parent pointers returns exactly the ancestor values, nearest first |
| `NaryTree.Graft` | src/AmazonQ/tree.v1.ts:59-61 | writing a node back through its path makes the new node reachable at that path |
| `NaryTree.GraftOutside` | src/AmazonQ/tree.v1.ts:59-61 | writing a node back leaves every node not below the path at its old path with its old value |
| `NaryTree.Rebuild` | src/AmazonQ/tree.v1.ts:59-61 | replacing one node's children keeps that node's value and every node outside its subtree; the tree's values change by exactly the old children out and the new ones in |
| `NaryTree.AddChild` | src/AmazonQ/tree.v1.ts:37-39 | `children.push(newNode)`: the new leaf is the last child of the parent, nothing outside the parent's subtree moves, and the tree holds exactly one value more |
| `NaryTree.InsertUnder` | src/AmazonQ/tree.v1.ts:30-41 | an unknown parent value returns null and leaves the tree as it was; otherwise the new node goes last under the pre-order first match and its path is returned |
| `NaryTree.InsertUnderShape` | src/AmazonQ/tree.v2.ts:41-51 | an insert under a parent fails exactly when no node holds the parent value; a successful one keeps the root and adds exactly the new value |
| `NaryTree.AppendedParents` | src/AmazonQ/tree.v1.ts:37-41 | the new node's parent pointer is the node it was appended to: its ancestor values are that node's value followed by that node's own ancestors |
| `NaryTree.Without` | src/Gemini/tree.ts:67 | the identity filter: the children before the removed index stay in place, and the ones after it shift down by one |
| `NaryTree.CutOut` | src/Claude/tree.ts:67-68 | cutting out one child by identity removes exactly that node's subtree; the parent keeps its value and its other children in order, and nothing outside the parent's subtree changes |
| `NaryTree.Keep` | src/AmazonQ/tree.v1.ts:61 | the value filter keeps no child holding the value and keeps all children when none holds it |
| `NaryTree.Drop` | src/AmazonQ/tree.v1.ts:61 | the children the value filter discards all hold the value, and together with the kept ones they account for every child |
| `NaryTree.KeepPosition` | src/AmazonQ/tree.v1.ts:61 | the value filter keeps order: a surviving child follows exactly the surviving children that preceded it |
| `NaryTree.KeepDropValues` | src/AmazonQ/tree.v1.ts:61 | kept and discarded children together hold exactly the values of all the children |
| `NaryTree.DropChildren` | src/AmazonQ/tree.v1.ts:59-61 | filtering one node's children by value drops exactly the subtrees of the children holding the value; nothing outside that node's subtree changes |
| `NaryTree.MatchIsDropped` | src/AmazonQ/tree.v1.ts:61 | the matched node itself is among the children the value filter discards |
| `NaryTree.FindAfterCut` | src/Claude/tree.ts:61-69 | after a subtree is cut out, a value can still be found exactly when some node outside that subtree holds it |
| `NaryTree.FindAfterDrop` | src/AmazonQ/tree.v2.ts:69-72 | after same-valued siblings are filtered out, a value can still be found exactly when some node outside the dropped subtrees holds it |
| `AmazonQV1.Insert` | src/AmazonQ/tree.v1.ts:21-42 | an empty tree, or no parent named, makes the new node the whole tree (the old tree is discarded); otherwise it is an insert under the first node holding the parent value, or null and no change |
| `AmazonQV1.Remove` | src/AmazonQ/tree.v1.ts:45-64 | false with the tree untouched exactly when no node holds the value; a root match empties the tree; any other match takes every sibling holding the same value, subtrees included, and the other siblings stay in order |
| `AmazonQV1.GetAllParents` | src/AmazonQ/tree.v1.ts:67-84 | empty when the value is absent; otherwise the ancestor values of the first match, nearest first and root last, as many as the match's depth (none for the root) |
| `AmazonQV1.FindNode` | src/AmazonQ/tree.v1.ts:87-110 | null on an empty tree or an absent value, else the pre-order first node holding it |
| `AmazonQV1.RemoveHidesOnlySubtrees` | src/AmazonQ/tree.v1.ts:59-63 | after removing a non-root value, a value held only inside the match's subtree can no longer be found, and one held outside the dropped siblings still can |
| `AmazonQV2.Insert` | src/AmazonQ/tree.v2.ts:21-52 | a root is made only for an empty tree and no parent; an empty tree with a parent, or a non-empty tree with none, returns null and changes nothing; otherwise it is an insert under the first match |
| `AmazonQV2.InsertNeverReplacesRoot` | src/AmazonQ/tree.v2.ts:31-51 | on a non-empty tree, an insert never replaces the root: a refused one changes nothing, and an accepted one keeps the root value and adds exactly one value |
| `AmazonQV2.Remove` | src/AmazonQ/tree.v2.ts:55-73 | the same promise as the first version's `remove` |
| `AmazonQV2.GetAllParents` | src/AmazonQ/tree.v2.ts:76-92 | empty for an absent value; otherwise the first match's ancestor values, nearest first and root last |
| `AmazonQV2.FindNode` | src/AmazonQ/tree.v2.ts:95-118 | null on an empty tree or an absent value, else the pre-order first node holding it |
| `Gemini.Insert` | src/Gemini/tree.ts:20-43 | an empty tree takes the node as root whatever the parent argument; a null parent on a non-empty tree returns null and changes nothing; otherwise it is an insert under the first match, or null and no change |
| `Gemini.Remove` | src/Gemini/tree.ts:46-72 | false with no change for an absent value, and for a root match while the root has children; a childless root empties the tree; any other first match is cut out alone, by identity |
| `Gemini.GetAllParents` | src/Gemini/tree.ts:75-85 | empty for an absent value or the root; otherwise the first match's ancestor values, nearest first |
| `Gemini.FindFrom` | src/Gemini/tree.ts:87-106 | a given start node is searched in its own subtree only; `null`, the default, falls back to the root; the result is null exactly when the searched tree is empty or lacks the value, else its pre-order first match |
| `Gemini.Find` | src/Gemini/tree.ts:87-106 | the call from the root that `insert`, `remove` and `getAllParents` make: null on an empty tree or an absent value, else the pre-order first node holding it |
| `Gemini.RemoveKeepsOthersFindable` | src/Gemini/tree.ts:66-69 | after a non-root removal, a value is still found exactly when a node outside the removed subtree holds it, for example a same-valued sibling |
| `Claude.Insert` | src/Claude/tree.ts:21-47 | an empty tree takes the node as root (true); an absent or falsy parent value appends the node as the root's last child (true); otherwise true exactly when some node holds the parent value, with the node appended under the first one, and false with no change otherwise |
| `Claude.Remove` | src/Claude/tree.ts:50-70 | false with no change exactly when the value is absent; a root holding the value empties the tree whatever its children; any other first match is cut out alone, by identity |
| `Claude.GetAllParents` | src/Claude/tree.ts:73-88 | empty for an absent value; otherwise the first match's ancestor nodes themselves, nearest first and root last |
| `Claude.FindNodeFrom` | src/Claude/tree.ts:91-108 | an omitted (`undefined`) start node means the root; an explicit `null` finds nothing, whatever the tree holds; a given node is searched in its own subtree, returning its pre-order first match or null |
| `Claude.FindNode` | src/Claude/tree.ts:91-108 | the call from the root that `insert`, `remove` and `getAllParents` make: null on an empty tree or an absent value, else the pre-order first node holding it |
| `Claude.ParentNodesCarryParentValues` | src/Claude/tree.ts:79-85 | the ancestor nodes Claude returns carry exactly the ancestor values the other variants return |
| `Copilot.FindNode` | src/Copilot/tree.ts:69-84 | a null argument finds nothing; otherwise null on an empty tree or an absent value, else the pre-order first node holding it |
| `Copilot.InsertNode` | src/Copilot/tree.ts:18-30 | an empty tree takes the node as root whatever the parent argument; otherwise "Parent node not found" exactly when the parent is null or held by no node, and the node goes last under the first match |
| `Copilot.FindParentNodeRecursive` | src/Copilot/tree.ts:90-100 | a returned parent path leads to a node of the tree |
| `Copilot.ParentLoop` | src/Copilot/tree.ts:93-97 | the child loop of the parent search returns a path inside the tree |
| `Copilot.ParentLoopFindsParentOfFirst` | src/Copilot/tree.ts:90-100 | the parent search (each child tested, then searched) returns the parent of the first pre-order match among the non-root nodes |
| `Copilot.FindParentNodeIsParentOfFirst` | src/Copilot/tree.ts:86-100 | when the root does not hold the value, the parent search succeeds exactly when the value is present, and returns the parent of the pre-order first match |
| `Copilot.ParentSearchIsNotShallowest` | src/Copilot/tree.ts:90-100 | a tree where the root has a matching child, yet the search returns a deeper node: the one whose matching child comes first in pre-order |
| `Copilot.RemoveNode` | src/Copilot/tree.ts:32-46 | no change on an empty tree; a root holding the value empties the tree; "Node not found" exactly when the value is absent; otherwise every child holding the value is dropped from the first match's parent |
| `Copilot.FindParentsRecursive` | src/Copilot/tree.ts:54-67 | a failed search leaves the shared `parents` array as it was; a successful one only appends to it |
| `Copilot.ParentsLoop` | src/Copilot/tree.ts:59-66 | the child loop of `findParentsRecursive` leaves the array unchanged on failure and only appends on success |
| `Copilot.ParentsLoopCollectsAncestors` | src/Copilot/tree.ts:54-67 | the recursion succeeds exactly when the search finds the value, and appends the match's ancestor values, nearest first |
| `Copilot.RootWalkCollectsAncestors` | src/Copilot/tree.ts:48-64 | the values `findParentsRecursive` pushes from the root are empty for an absent value or a root match, and otherwise the first match's ancestor values, nearest first |
| `Copilot.GetAllParents` | src/Copilot/tree.ts:48-52 | empty for an absent value or the root; otherwise the first match's ancestor values, nearest first and root last |
| `Scenarios.CopilotBuildsSample` | src/Copilot/tree.v1.test.ts:10-22 | the four `insertNode` calls of the test build 1 with children 2 and 3, and 4 under 2, in insertion order |
| `Scenarios.CopilotSampleRemoveAndParents` | src/Copilot/tree.v1.test.ts:24-46 | on that tree, removing 2 leaves 1 with the single child 3, and the parents of 4 are 2 then 1 |
| `Scenarios.RepeatedValuesAreSiblings` | src/AmazonQ/tree.v2.test.ts:289-303 | inserting the same value twice under the root gives the root two children |
| `Scenarios.GeminiProtectsParentRoot` | src/Gemini/tree.v1.test.ts:46-64 | a root with a child is not removed; the child can be removed, and then the childless root can be removed |
| `Scenarios.TwinSiblings` | src/Gemini/tree.ts:66-69 | with two same-valued siblings, AmazonQ and Copilot remove both, while Gemini and Claude remove only the first |
| `Scenarios.StartNodes` | src/Claude/tree.ts:91-94 | on one tree, Gemini's `find` with a `null` start node searches from the root, Claude's `findNode` with `null` finds nothing, and a start node below the root hides the root from both |

## Left out

- `print` / `printTree`, and the `console.log` / `console.warn` calls: console output only. Only the
  return values beside the warnings are modelled.
- The example code at module scope in four of the files: it is demo code that only logs.
- `getRoot` in `src/AmazonQ/tree.v2.ts`: a plain accessor. The model's tree value is the root.
- Object identity and parent pointers: a node is named by its path from the root. The filter by
  identity (`child !== nodeToRemove`) becomes the removal of one child index.
- Mutation and aliasing: the operations return new trees. A node handed back by `findNode` is a
  value, so later changes made through it are not modelled.
- The node object that `insert` returns: it is modelled by its path. It is null exactly when the
  source returns null. The Claude insert returns only its boolean.
- Thrown errors: Copilot's `Error`s become `Failure(ParentNotFound)` and `Failure(NodeNotFound)`.
  The throw happens before any change, so the caller keeps the old tree.
- JavaScript `undefined` and `null`: a missing or `undefined` parent argument becomes `None`, and
  so does the `null` that Gemini and Copilot take as their default (src/Gemini/tree.ts:20,
  src/Copilot/tree.ts:18). AmazonQ v1 and v2 test `parentValue === undefined`
  (src/AmazonQ/tree.v1.ts:25, src/AmazonQ/tree.v2.ts:25,31,36), so an explicit `null` passed to
  their `insert` is a parent supplied: `Some(null)`, for a `T` whose values include `null`. That is
  how the AmazonQ v2 test that hangs a node under a `null`-valued root reads in the model
  (src/AmazonQ/tree.v2.test.ts:307-319). Claude's `!parentValue` takes the set of falsy values of
  `T` as a parameter (`isFalsy`), `null` among them. Copilot's `findNode(null)` is modelled as
  finding nothing, which assumes no node holds `null`; a Copilot tree with a `null`-valued node is
  not modelled.
- Equality is Dafny's `==` on `T`. JavaScript `===` differs on `NaN` (never equal to itself) and on
  objects (compared by reference). The model assumes neither case arises.
- Recursion depth and stack limits: the model's recursion is unbounded.
- `Claude.Remove`: the `!nodeToRemove.parent` test at src/Claude/tree.ts:62 is left out because it
  cannot fire. The root was handled at line 56, so any match found afterwards has a parent.
- `Gemini.Remove`: the closing `return false` at src/Gemini/tree.ts:71 is left out for the same
  reason. Only the root lacks a parent, and the root is handled at lines 57-64.
