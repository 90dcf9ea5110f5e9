/**
  Concrete trees from the variants' test suites and demo code, worked through the model, and the
  one place where the variants visibly part ways: which siblings a removal takes along.
 */
module Scenarios {
  import opened Wrappers
  import opened NaryTree
  import AmazonQV1
  import AmazonQV2
  import Gemini
  import Claude
  import Copilot

  /** 1 with children 2 and 3, and 4 under 2: the tree the Copilot tests build. */
  function CopilotSample(): Node<int>
  {
    Node(1, [Node(2, [Leaf(4)]), Leaf(3)])
  }

  /** Four `insertNode` calls, each under the parent named, build the sample. */
  lemma CopilotBuildsSample()
    ensures Copilot.InsertNode(None, 1, None) == Success(Some(Leaf(1)))
    ensures Copilot.InsertNode(Some(Leaf(1)), 2, Some(1)) == Success(Some(Node(1, [Leaf(2)])))
    ensures Copilot.InsertNode(Some(Node(1, [Leaf(2)])), 3, Some(1)) == Success(Some(Node(1, [Leaf(2), Leaf(3)])))
    ensures Copilot.InsertNode(Some(Node(1, [Leaf(2), Leaf(3)])), 4, Some(2)) == Success(Some(CopilotSample()))
  {
    CopilotFirstTwoInserts();
    CopilotLastInsert();
  }

  lemma CopilotFirstTwoInserts()
    ensures Copilot.InsertNode(Some(Leaf(1)), 2, Some(1)) == Success(Some(Node(1, [Leaf(2)])))
    ensures Copilot.InsertNode(Some(Node(1, [Leaf(2)])), 3, Some(1)) == Success(Some(Node(1, [Leaf(2), Leaf(3)])))
  {
    var n1 := Leaf(1);
    assert FindPath(n1, 1) == Some([]);
    assert At(n1, []) == n1;
    assert [] + [Leaf(2)] == [Leaf(2)];
    assert AddChild(n1, [], 2) == Node(1, [Leaf(2)]);
    var n2 := Node(1, [Leaf(2)]);
    assert FindPath(n2, 1) == Some([]);
    assert At(n2, []) == n2;
    assert [Leaf(2)] + [Leaf(3)] == [Leaf(2), Leaf(3)];
    assert AddChild(n2, [], 3) == Node(1, [Leaf(2), Leaf(3)]);
  }

  lemma CopilotLastInsert()
    ensures Copilot.InsertNode(Some(Node(1, [Leaf(2), Leaf(3)])), 4, Some(2)) == Success(Some(CopilotSample()))
  {
    var n3 := Node(1, [Leaf(2), Leaf(3)]);
    assert [0] + [] == [0];
    assert FindPath(n3.children[0], 2) == Some([]);
    assert FindInChildren(n3, 2, 0) == Some([0]);
    assert FindPath(n3, 2) == Some([0]);
    assert At(n3, [0]) == Leaf(2);
    assert [] + [Leaf(4)] == [Leaf(4)];
    assert [0][1..] == [];
    assert Graft(n3.children[0], [], Node(2, [Leaf(4)])) == Node(2, [Leaf(4)]);
    assert Graft(n3, [0], Node(2, [Leaf(4)])) == CopilotSample();
  }

  /** On the sample, removing 2 leaves 1 with the single child 3, and 4's parents are 2 then 1. */
  lemma CopilotSampleRemoveAndParents()
    ensures Copilot.RemoveNode(Some(CopilotSample()), 2) == Success(Some(Node(1, [Leaf(3)])))
    ensures Copilot.GetAllParents(Some(CopilotSample()), 4) == [2, 1]
  {
    var n4 := CopilotSample();
    assert Copilot.FindParentNodeRecursive(n4, 2) == Some([]);
    assert Keep(n4.children, 2) == [Leaf(3)];
    assert Copilot.FindParentsRecursive(n4.children[0], 4, []) == Copilot.Walk(true, [2]);
  }

  /** AmazonQ v2: the same value inserted twice under the root gives the root two children. */
  lemma RepeatedValuesAreSiblings()
    ensures var t1 := AmazonQV2.Insert(None, "Root", None).tree;
      && var t2 := AmazonQV2.Insert(t1, "Child", Some("Root")).tree;
      && var t3 := AmazonQV2.Insert(t2, "Child", Some("Root")).tree;
      && t3 == Some(Node("Root", [Leaf("Child"), Leaf("Child")]))
  {
    var n1 := Leaf("Root");
    assert FindPath(n1, "Root") == Some([]);
    assert At(n1, []) == n1;
    assert AddChild(n1, [], "Child") == Node("Root", [] + [Leaf("Child")]);
    assert [] + [Leaf("Child")] == [Leaf("Child")];
    var n2 := Node("Root", [Leaf("Child")]);
    assert FindPath(n2, "Root") == Some([]);
    assert At(n2, []) == n2;
    assert AddChild(n2, [], "Child") == Node("Root", [Leaf("Child")] + [Leaf("Child")]);
    assert [Leaf("Child")] + [Leaf("Child")] == [Leaf("Child"), Leaf("Child")];
  }

  /** Gemini: a root with children is kept; once its child is gone, the root can go. */
  lemma GeminiProtectsParentRoot()
    ensures Gemini.Remove(Some(Node("A", [Leaf("B")])), "A") == Applied(Some(Node("A", [Leaf("B")])), false)
    ensures Gemini.Remove(Some(Node("A", [Leaf("B")])), "B") == Applied(Some(Leaf("A")), true)
    ensures Gemini.Remove(Some(Leaf("A")), "A") == Applied(None, true)
  {
    var n := Node("A", [Leaf("B")]);
    assert FindPath(n, "A") == Some([]);
    assert FindPath(n.children[0], "B") == Some([]);
    assert [0] + [] == [0];
    assert FindInChildren(n, "B", 0) == Some([0]);
    assert FindPath(n, "B") == Some([0]);
    assert Without(n.children, 0) == [];
    assert FindPath(Leaf("A"), "A") == Some([]);
  }

  /**
    Two siblings holding the same value: removal by value (AmazonQ, Copilot) takes both, removal by
    identity (Gemini, Claude) takes the first one only.
   */
  lemma TwinSiblings()
    ensures var t := Some(Node(0, [Leaf(1), Leaf(1)]));
      && AmazonQV1.Remove(t, 1) == Applied(Some(Leaf(0)), true)
      && Copilot.RemoveNode(t, 1) == Success(Some(Leaf(0)))
      && Gemini.Remove(t, 1) == Applied(Some(Node(0, [Leaf(1)])), true)
      && Claude.Remove(t, 1) == Applied(Some(Node(0, [Leaf(1)])), true)
  {
    var n := Node(0, [Leaf(1), Leaf(1)]);
    assert FindPath(n.children[0], 1) == Some([]);
    assert [0] + [] == [0];
    assert FindInChildren(n, 1, 0) == Some([0]);
    assert FindPath(n, 1) == Some([0]);
    assert Keep(n.children, 1) == [];
    assert Copilot.FindParentNodeRecursive(n, 1) == Some([]);
    assert Without(n.children, 0) == [Leaf(1)];
  }

  /**
    The optional start node of `find`/`findNode`: Gemini falls back to the root on `null`, Claude
    finds nothing; a start node below the root hides the rest of the tree.
   */
  lemma StartNodes()
    ensures var t := Some(Node(1, [Leaf(2)]));
      && Gemini.FindFrom(t, 2, None) == Some(Leaf(2))
      && Claude.FindNodeFrom(t, 2, Claude.Null) == None
      && Gemini.FindFrom(t, 1, Some(Leaf(2))) == None
      && Claude.FindNodeFrom(t, 1, Claude.Given(Leaf(2))) == None
  {
  }
}
