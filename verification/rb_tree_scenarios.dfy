/**
 * The scenarios exercised by the unit tests of rb_tree/src/lib.rs, restated
 * as facts about the model: a single node, a tree assembled with the `left`
 * and `right` builders, lookups in that tree, and a run of insertions.
 */
module RbTreeScenarios {
  import opened RbTree

  /** The tree the builder tests assemble: 10 over (5 over 2, 7) and (20 over -, 25). */
  function StaticTree(): BinaryTree
  {
    WithRight(
      WithLeft(New(10), WithRight(WithLeft(New(5), New(2)), New(7))),
      WithRight(New(20), New(25)))
  }

  /** A new node holds the key it was given. */
  lemma SingleNode()
    ensures New(1).data == 1 && Keys(New(1)) == {1}
  {
  }

  /**
   * The builders place every node where the test expects it, and the result
   * happens to be ordered, so lookups in it answer membership.
   */
  lemma StaticTreeShape()
    ensures StaticTree().data == 10
    ensures StaticTree().left == Some(Node(5, Some(New(2)), Some(New(7))))
    ensures StaticTree().right == Some(Node(20, None, Some(New(25))))
    ensures Keys(StaticTree()) == {2, 5, 7, 10, 20, 25}
    ensures Ordered(StaticTree())
  {
  }

  /** Every key of the static tree is found, and 100 is not. */
  method ContainsScenario()
  {
    var t := StaticTree();
    StaticTreeShape();
    var found := Contains(t, 2);
    assert found;
    found := Contains(t, 5);
    assert found;
    found := Contains(t, 7);
    assert found;
    found := Contains(t, 10);
    assert found;
    found := Contains(t, 20);
    assert found;
    found := Contains(t, 25);
    assert found;
    found := Contains(t, 100);
    assert !found;
  }

  /** The first insertions of the test: 5, 0 and 6 into a tree holding 1. */
  method InsertRunStart() returns (t: BinaryTree)
    ensures Ordered(t) && Keys(t) == {0, 1, 5, 6}
  {
    t := New(1);
    t := Insert(t, 5);
    t := Insert(t, 0);
    t := Insert(t, 6);
  }

  /** The whole run, 5, 0, 6, 10, 7 into a tree holding 1, gives an ordered tree of those keys. */
  method InsertRun() returns (t: BinaryTree)
    ensures Ordered(t) && Keys(t) == {0, 1, 5, 6, 7, 10}
  {
    t := InsertRunStart();
    t := Insert(t, 10);
    t := Insert(t, 7);
  }

  /** After that run of insertions every inserted key is found. */
  method InsertScenario()
  {
    var t := InsertRun();
    var found := Contains(t, 0);
    assert found;
    found := Contains(t, 5);
    assert found;
    found := Contains(t, 6);
    assert found;
    found := Contains(t, 10);
    assert found;
    found := Contains(t, 7);
    assert found;
  }
}
