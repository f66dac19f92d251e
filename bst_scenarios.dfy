/**
 * Concrete runs of the index, built from `NewBST`, as the code is written.
 */
module BstScenarios {
  import opened Wrappers
  import opened StringOrder
  import opened BstSpec
  import opened BstLemmas

  /** Two subscribers on "orders", one on "alerts". */
  function ScenarioTree(): (t: Tree)
    ensures Sentinel(t)
  {
    InsertKeepsSentinel(Fresh(), "u1", "orders");
    var t1 := Inserted(Fresh(), "u1", "orders");
    InsertKeepsSentinel(t1, "u2", "orders");
    var t2 := Inserted(t1, "u2", "orders");
    InsertKeepsSentinel(t2, "u1", "alerts");
    Inserted(t2, "u1", "alerts")
  }

  /**
   * Get finds both subscribers of "orders" and the one of "alerts", and nil for
   * "billing"; `Remove("u1", "orders")` then leaves the tree as it was, because
   * its walk goes right from the sentinel root.
   */
  lemma OrdersAndAlerts()
    ensures var t := ScenarioTree();
      && Lookup(t, "orders") == Some({"u1", "u2"})
      && Lookup(t, "alerts") == Some({"u1"})
      && Lookup(t, "billing") == None
      && Removed(t, "u1", "orders", false) == t
  {
    var t1 := Inserted(Fresh(), "u1", "orders");
    var t2 := Inserted(t1, "u2", "orders");
    var t := ScenarioTree();
    assert t1 == Node("", None, Node("orders", Some({"u1"}), Nil, Nil), Nil);
    assert {"u1"} + {"u2"} == {"u1", "u2"};
    assert t2 == Node("", None, Node("orders", Some({"u1", "u2"}), Nil, Nil), Nil);
    assert t == Node("", None, Node("orders", Some({"u1", "u2"}), Nil, Node("alerts", Some({"u1"}), Nil, Nil)), Nil);
    SentinelRemove(t, "u1", "orders");
  }

  /**
   * Remove on a root with two children: after `Remove("x", "")` the root takes
   * over topic "m" (children "z" and "b"); `Remove("u1", "m")` then copies "b"
   * up but the follow-up removal searches for topic "u1", so "b" stays below
   * and occurs twice.
   */
  lemma TwoChildrenKeepsSuccessor()
    ensures var t0 := Inserted(Inserted(Inserted(Fresh(), "u1", "m"), "u2", "z"), "u3", "b");
      var t1 := Removed(t0, "x", "", false);
      var t2 := Removed(t1, "u1", "m", false);
      && t1 == Node("m", Some({"u1"}), Node("z", Some({"u2"}), Nil, Nil), Node("b", Some({"u3"}), Nil, Nil))
      && t2 == Node("b", Some({"u3"}), Node("z", Some({"u2"}), Nil, Nil), Node("b", Some({"u3"}), Nil, Nil))
  {
    var leafM, leafZ, leafB := Node("m", Some({"u1"}), Nil, Nil), Node("z", Some({"u2"}), Nil, Nil), Node("b", Some({"u3"}), Nil, Nil);
    var ta := Inserted(Fresh(), "u1", "m");
    assert ta == Node("", None, leafM, Nil);
    assert Less("m", "z");
    var tb := Inserted(ta, "u2", "z");
    assert tb == Node("", None, leafM.(left := leafZ), Nil);
    assert !Less("m", "b");
    var t0 := Inserted(tb, "u3", "b");
    assert t0 == Node("", None, Node("m", Some({"u1"}), leafZ, leafB), Nil);
    var t1 := Removed(t0, "x", "", false);
    assert t1 == Node("m", Some({"u1"}), leafZ, leafB);
    Irreflexive("m");
    assert MinString(leafB) == ("b", Some({"u3"}));
    assert !Less("u1", "b") && Less("b", "u1");
    assert Removed(leafB, "b", "u1", true) == leafB;
  }

  /** Topics "m", "b", "z", "a", "c", "y" inserted in that order with uuids "i1" to "i6". */
  function SixTopics(): Tree
  {
    InsertKeepsSentinel(Fresh(), "i1", "m");
    var t1 := Inserted(Fresh(), "i1", "m");
    InsertKeepsSentinel(t1, "i2", "b");
    var t2 := Inserted(t1, "i2", "b");
    InsertKeepsSentinel(t2, "i3", "z");
    var t3 := Inserted(t2, "i3", "z");
    InsertKeepsSentinel(t3, "i4", "a");
    var t4 := Inserted(t3, "i4", "a");
    InsertKeepsSentinel(t4, "i5", "c");
    var t5 := Inserted(t4, "i5", "c");
    InsertKeepsSentinel(t5, "i6", "y");
    Inserted(t5, "i6", "y")
  }

  function Leaf(topic: string, uuid: string): Tree
  {
    Node(topic, Some({uuid}), Nil, Nil)
  }

  /** The tree after the first three inserts: "m" with "z" on its left and "b" on its right. */
  lemma FirstThree()
    ensures Inserted(Inserted(Inserted(Fresh(), "i1", "m"), "i2", "b"), "i3", "z")
         == Node("", None, Node("m", Some({"i1"}), Leaf("z", "i3"), Leaf("b", "i2")), Nil)
  {
    var t1 := Inserted(Fresh(), "i1", "m");
    assert t1 == Node("", None, Leaf("m", "i1"), Nil);
    assert !Less("m", "b");
    var t2 := Inserted(t1, "i2", "b");
    assert t2 == Node("", None, Node("m", Some({"i1"}), Nil, Leaf("b", "i2")), Nil);
    assert Less("m", "z");
  }

  lemma LastThree(t3: Tree)
    requires t3 == Node("", None, Node("m", Some({"i1"}), Leaf("z", "i3"), Leaf("b", "i2")), Nil)
    ensures Inserted(Inserted(Inserted(t3, "i4", "a"), "i5", "c"), "i6", "y")
         == Node("", None, Node("m", Some({"i1"}), Node("z", Some({"i3"}), Nil, Leaf("y", "i6")),
                                Node("b", Some({"i2"}), Leaf("c", "i5"), Leaf("a", "i4"))), Nil)
  {
    assert !Less("m", "a") && !Less("b", "a");
    var t4 := Inserted(t3, "i4", "a");
    assert t4 == Node("", None, Node("m", Some({"i1"}), Leaf("z", "i3"), Node("b", Some({"i2"}), Nil, Leaf("a", "i4"))), Nil);
    assert !Less("m", "c") && Less("b", "c");
    var t5 := Inserted(t4, "i5", "c");
    assert t5 == Node("", None, Node("m", Some({"i1"}), Leaf("z", "i3"), Node("b", Some({"i2"}), Leaf("c", "i5"), Leaf("a", "i4"))), Nil);
    assert Less("m", "y") && !Less("z", "y");
  }

  /** The six topics form this tree: "m" has "z" on its left and "b" on its right. */
  function SixTopicsTree(): Tree
  {
    Node("", None, Node("m", Some({"i1"}), Node("z", Some({"i3"}), Nil, Leaf("y", "i6")),
                        Node("b", Some({"i2"}), Leaf("c", "i5"), Leaf("a", "i4"))), Nil)
  }

  lemma SixTopicsShape()
    ensures SixTopics() == SixTopicsTree()
  {
    FirstThree();
    LastThree(Inserted(Inserted(Inserted(Fresh(), "i1", "m"), "i2", "b"), "i3", "z"));
  }

  /**
   * In the tree the six inserts build, "m" has two children, but
   * `Remove("i1", "m")` from the root never reaches it: the tree is unchanged
   * and Get still finds the topics' uuids.
   */
  lemma SixTopicsRemoveM()
    ensures var t := SixTopicsTree();
      && t.left.topic == "m" && t.left.left.Node? && t.left.right.Node?
      && Removed(t, "i1", "m", false) == t
      && Lookup(t, "m") == Some({"i1"}) && Lookup(t, "c") == Some({"i5"})
  {
    var t := SixTopicsTree();
    var m := t.left;
    var b := m.right;
    assert Removed(t, "i1", "m", false) == t by {
      EmptyIsLeast("m");
    }
    assert Lookup(t, "m") == Some({"i1"}) by {
      EmptyIsLeast("m");
      assert Search(t, "m") == Search(m, "m");
    }
    assert Lookup(t, "c") == Some({"i5"}) by {
      assert Less("", "c") && Search(t, "c") == Search(m, "c");
      assert !Less("m", "c") && Search(m, "c") == Search(b, "c");
      assert Less("b", "c") && Search(b, "c") == Search(b.left, "c");
    }
  }
}
