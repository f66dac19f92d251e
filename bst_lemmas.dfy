/**
 * What the operations of plugins/memory/bst/bst.go do to the index, proved about
 * the functions of module BstSpec (which the methods of module Bst compute).
 */
module BstLemmas {
  import opened Wrappers
  import opened StringOrder
  import opened BstSpec

  // ---------------------------------------------------------------------------
  // The routing invariant

  /** Under the routing invariant a topic greater than a node's is not on its right, a smaller one not on its left. */
  lemma SidesOf(t: Tree, k: string)
    requires Ordered(t) && t.Node?
    ensures Less(t.topic, k) ==> k !in Topics(t.right)
    ensures Less(k, t.topic) ==> k !in Topics(t.left)
  {
    if Less(t.topic, k) && k in Topics(t.right) {
      Asymmetric(t.topic, k);
    }
    if Less(k, t.topic) && k in Topics(t.left) {
      Asymmetric(k, t.topic);
    }
  }

  /** Each topic occurs in at most one node of a tree that keeps the routing invariant. */
  lemma {:induction false} OrderedOccursOnce(t: Tree, k: string)
    requires Ordered(t) && k in Topics(t)
    ensures Occurrences(t, k) == 1
  {
    var Node(kn, _, l, r) := t;
    if k == kn {
      Irreflexive(k);
      assert k !in Topics(l) && k !in Topics(r);
    } else if k in Topics(l) {
      SidesOf(t, k);
      OrderedOccursOnce(l, k);
    } else {
      assert Less(k, kn);
      SidesOf(t, k);
      OrderedOccursOnce(r, k);
    }
  }

  // ---------------------------------------------------------------------------
  // Get

  /** Under the routing invariant the walk of Get finds a node exactly when the topic is in the tree. */
  lemma {:induction false} SearchFinds(t: Tree, k: string)
    requires Ordered(t)
    ensures Search(t, k).Node? <==> k in Topics(t)
  {
    match t
    case Nil =>
    case Node(kn, _, l, r) =>
      if kn != k {
        Total(kn, k);
        SidesOf(t, k);
        if Less(kn, k) {
          SearchFinds(l, k);
        } else {
          SearchFinds(r, k);
        }
      }
  }

  /** Under the routing invariant Get returns exactly the set the index holds for the topic, and nil when it holds none. */
  lemma {:induction false} LookupIsSubscribers(t: Tree, k: string)
    requires Ordered(t)
    ensures Lookup(t, k) == Subscribers(t, k)
  {
    match t
    case Nil =>
    case Node(kn, _, l, r) =>
      if kn != k {
        Total(kn, k);
        SidesOf(t, k);
        if Less(kn, k) {
          LookupIsSubscribers(l, k);
        } else {
          LookupIsSubscribers(r, k);
        }
      }
  }

  /** In a tree whose nodes all hold sets, a node found by the walk holds a non-empty set. */
  lemma {:induction false} SearchNonEmpty(t: Tree, k: string)
    requires SetsNonEmpty(t) && Search(t, k).Node?
    ensures Search(t, k).uuids.Some? && Search(t, k).uuids.value != {}
  {
    var Node(kn, _, l, r) := t;
    if kn != k {
      if Less(kn, k) {
        SearchNonEmpty(l, k);
      } else {
        SearchNonEmpty(r, k);
      }
    }
  }

  // ---------------------------------------------------------------------------
  // Insert

  /**
   * Insert either adds `u` to the node already carrying the topic, creating no
   * node, or hangs a new leaf with exactly `{u}` where the walk ended.
   */
  lemma {:induction false} InsertAtTarget(t: Tree, u: string, k: string)
    requires InsertSafe(t, k)
    ensures var n := Search(t, k);
      && Search(Inserted(t, u, k), k)
         == (if n.Nil? then Node(k, Some({u}), Nil, Nil) else n.(uuids := Some(n.uuids.value + {u})))
      && NodeCount(Inserted(t, u, k)) == NodeCount(t) + (if n.Nil? then 1 else 0)
  {
    match t
    case Nil =>
    case Node(kn, _, l, r) =>
      if kn != k {
        if Less(kn, k) {
          InsertAtTarget(l, u, k);
        } else {
          InsertAtTarget(r, u, k);
        }
      }
  }

  /** Repeating `Insert(u, k)` changes nothing. */
  lemma {:induction false} InsertIdempotent(t: Tree, u: string, k: string)
    requires InsertSafe(t, k)
    ensures InsertSafe(Inserted(t, u, k), k)
    ensures Inserted(Inserted(t, u, k), u, k) == Inserted(t, u, k)
  {
    InsertAtTarget(t, u, k);
    match t
    case Nil =>
      assert {u} + {u} == {u};
    case Node(kn, us, l, r) =>
      if kn == k {
        assert us.value + {u} + {u} == us.value + {u};
      } else if Less(kn, k) {
        InsertIdempotent(l, u, k);
      } else {
        InsertIdempotent(r, u, k);
      }
  }

  /** Insert keeps the routing invariant. */
  lemma {:induction false} InsertKeepsOrdered(t: Tree, u: string, k: string)
    requires Ordered(t) && InsertSafe(t, k)
    ensures Ordered(Inserted(t, u, k))
  {
    match t
    case Nil =>
    case Node(kn, _, l, r) =>
      if kn != k {
        Total(kn, k);
        if Less(kn, k) {
          InsertKeepsOrdered(l, u, k);
        } else {
          InsertKeepsOrdered(r, u, k);
        }
      }
  }

  /**
   * On a tree that keeps the routing invariant, Insert adds `u` to the topic's
   * set (an absent topic gets `{u}`) and leaves every other topic as it was.
   */
  lemma {:induction false} InsertContents(t: Tree, u: string, k: string)
    requires Ordered(t) && InsertSafe(t, k)
    ensures Contents(Inserted(t, u, k)) == Contents(t)[k := Some(Members(Subscribers(t, k)) + {u})]
  {
    match t
    case Nil =>
      assert Members(Subscribers(t, k)) + {u} == {u};
      assert Contents(Nil) + Contents(Nil) == map[];
    case Node(kn, us, l, r) =>
      var want := Some(Members(Subscribers(t, k)) + {u});
      if kn != k {
        Total(kn, k);
        SidesOf(t, k);
        if Less(kn, k) {
          assert Subscribers(l, k) == Subscribers(t, k);
          InsertContents(l, u, k);
          UpdateRightOperand(Contents(r), Contents(l), k, want, kn, us);
        } else {
          assert Subscribers(r, k) == Subscribers(t, k);
          InsertContents(r, u, k);
          UpdateLeftOperand(Contents(r), Contents(l), k, want, kn, us);
        }
      }
  }

  lemma UpdateRightOperand<K, V>(a: map<K, V>, b: map<K, V>, k: K, w: V, k': K, v: V)
    requires k != k'
    ensures (a + b[k := w])[k' := v] == (a + b)[k' := v][k := w]
  {
  }

  lemma UpdateLeftOperand<K, V>(a: map<K, V>, b: map<K, V>, k: K, w: V, k': K, v: V)
    requires k != k' && k !in b
    ensures (a[k := w] + b)[k' := v] == (a + b)[k' := v][k := w]
  {
  }

  /**
   * After `Insert(u, k)` on a tree that keeps the routing invariant, `Get(k)`
   * returns a set holding `u` and the old members, and `Get` of any other topic
   * is unchanged.
   */
  lemma LookupAfterInsert(t: Tree, u: string, k: string, k': string)
    requires Ordered(t) && InsertSafe(t, k)
    ensures Lookup(Inserted(t, u, k), k')
         == if k' == k then Some(Members(Lookup(t, k)) + {u}) else Lookup(t, k')
  {
    InsertKeepsOrdered(t, u, k);
    InsertContents(t, u, k);
    LookupIsSubscribers(t, k);
    LookupIsSubscribers(t, k');
    LookupIsSubscribers(Inserted(t, u, k), k');
  }

  lemma {:induction false} InsertKeepsSetsNonEmpty(t: Tree, u: string, k: string)
    requires SetsNonEmpty(t) && InsertSafe(t, k)
    ensures SetsNonEmpty(Inserted(t, u, k))
  {
    match t
    case Nil =>
    case Node(kn, _, l, r) =>
      if kn != k {
        if Less(kn, k) {
          InsertKeepsSetsNonEmpty(l, u, k);
        } else {
          InsertKeepsSetsNonEmpty(r, u, k);
        }
      }
  }

  // ---------------------------------------------------------------------------
  // The sentinel root

  /**
   * From `NewBST`, Insert of a non-empty topic never writes into a nil map,
   * lands below the root's `left` link and keeps the sentinel shape.
   */
  lemma InsertKeepsSentinel(t: Tree, u: string, k: string)
    requires Sentinel(t) && k != ""
    ensures InsertSafe(t, k)
    ensures Inserted(t, u, k) == t.(left := Inserted(t.left, u, k))
    ensures Sentinel(Inserted(t, u, k))
  {
    EmptyIsLeast(k);
    if Search(t.left, k).Node? {
      SearchNonEmpty(t.left, k);
    }
    InsertKeepsOrdered(t, u, k);
    InsertKeepsSetsNonEmpty(t.left, u, k);
  }

  /** On the sentinel root, `Insert(u, "")` would write into the root's nil map. */
  lemma SentinelRejectsEmptyTopic(t: Tree)
    requires Sentinel(t)
    ensures !InsertSafe(t, "")
  {
  }

  /**
   * On a tree of the sentinel shape, Get returns nil exactly for the empty topic
   * and for topics that no node carries; otherwise a non-empty set.
   */
  lemma SentinelLookup(t: Tree, k: string)
    requires Sentinel(t)
    ensures Lookup(t, k).None? <==> k == "" || k !in Topics(t)
    ensures Lookup(t, k).Some? ==> Lookup(t, k).value != {}
  {
    if k != "" {
      EmptyIsLeast(k);
      SearchFinds(t.left, k);
      if Search(t.left, k).Node? {
        SearchNonEmpty(t.left, k);
      }
    }
  }

  /**
   * On a tree of the sentinel shape, Remove of a non-empty topic is a no-op: its
   * walk takes the root's nil `right` link. Remove of the empty topic makes the
   * root take over its `left` child, if it has one.
   */
  lemma SentinelRemove(t: Tree, u: string, k: string)
    requires Sentinel(t)
    ensures Removed(t, u, k, false) == if k != "" || t.left.Nil? then t else t.left
  {
    EmptyIsLeast(k);
  }

  // ---------------------------------------------------------------------------
  // traverseForMinString

  /**
   * Following `left` links ends at the GREATEST topic of a tree that keeps the
   * routing invariant (greater topics go left), and returns that node's set.
   */
  lemma {:induction false} MinStringIsGreatest(t: Tree)
    requires Ordered(t) && t.Node?
    ensures var m := MinString(t);
      && Subscribers(t, m.0) == m.1
      && forall x | x in Topics(t) :: x == m.0 || Less(x, m.0)
  {
    var Node(k, _, l, r) := t;
    var m := MinString(t);
    if l.Nil? {
      assert forall x | x in Topics(t) :: x == m.0 || Less(x, m.0);
    } else {
      MinStringIsGreatest(l);
      assert Less(k, m.0);
      SidesOf(t, m.0);
      forall x | x in Topics(r)
        ensures Less(x, m.0)
      {
        Transitive(x, k, m.0);
      }
    }
  }

  // ---------------------------------------------------------------------------
  // Remove

  /** When the walk of removeHelper reaches a nil child, the tree is unchanged. */
  lemma {:induction false} RemoveMissIsNoOp(t: Tree, u: string, k: string, hasParent: bool)
    requires RemoveTarget(t, k).Nil?
    ensures Removed(t, u, k, hasParent) == t
  {
    match t
    case Nil =>
    case Node(kn, _, l, r) =>
      if Less(k, kn) {
        RemoveMissIsNoOp(l, u, k, true);
      } else {
        RemoveMissIsNoOp(r, u, k, true);
      }
  }

  /** A topic on one side of every topic of an ordered tree is never reached by removeHelper's reversed walk. */
  lemma {:induction false} RemoveTargetAway(t: Tree, k: string)
    requires Ordered(t)
    requires (forall x | x in Topics(t) :: Less(k, x)) || (forall x | x in Topics(t) :: Less(x, k))
    ensures RemoveTarget(t, k).Nil?
  {
    match t
    case Nil =>
    case Node(kn, _, l, r) =>
      assert kn in Topics(t);
      if forall x | x in Topics(t) :: Less(k, x) {
        assert Less(k, kn);
        RemoveTargetAway(l, k);
      } else {
        assert forall x | x in Topics(t) :: Less(x, k);
        assert Less(kn, k);
        Asymmetric(kn, k);
        RemoveTargetAway(r, k);
      }
  }

  /**
   * Because removeHelper walks in the opposite direction to Insert, on a tree
   * that keeps the routing invariant it only ever matches the node it starts
   * from: for any other topic the tree is unchanged.
   */
  lemma RemoveOffRootIsNoOp(t: Tree, u: string, k: string, hasParent: bool)
    requires Ordered(t) && t.Node? && t.topic != k
    ensures RemoveTarget(t, k).Nil?
    ensures Removed(t, u, k, hasParent) == t
  {
    var Node(kn, _, l, r) := t;
    Total(k, kn);
    if Less(k, kn) {
      forall x | x in Topics(l)
        ensures Less(k, x)
      {
        Transitive(k, kn, x);
      }
      RemoveTargetAway(l, k);
    } else {
      Asymmetric(kn, k);
      forall x | x in Topics(r)
        ensures Less(x, k)
      {
        Transitive(x, kn, k);
      }
      RemoveTargetAway(r, k);
    }
    RemoveMissIsNoOp(t, u, k, hasParent);
  }

  /**
   * When the matched node has more than one uuid and `u` among them, only `u`
   * is deleted: the shape, the routing invariant and every other topic stay.
   */
  lemma RemovePartial(t: Tree, u: string, hasParent: bool)
    requires Ordered(t) && t.Node? && Size(t.uuids) > 1 && Has(t.uuids, u)
    ensures var r := Removed(t, u, t.topic, hasParent);
      && r == t.(uuids := Some(t.uuids.value - {u}))
      && Ordered(r)
      && Contents(r) == Contents(t)[t.topic := Some(t.uuids.value - {u})]
  {
    Irreflexive(t.topic);
  }

  /**
   * Otherwise (one uuid, or `u` not among several: the whole node goes) a
   * matched node with at most one child is replaced by that child, or by nil,
   * so the topic and all its uuids vanish and the routing invariant stays;
   * only the root with no children is left as it is.
   */
  lemma RemoveUnlinks(t: Tree, u: string, hasParent: bool)
    requires Ordered(t) && t.Node? && !(Size(t.uuids) > 1 && Has(t.uuids, u))
    requires t.left.Nil? || t.right.Nil?
    ensures var r := Removed(t, u, t.topic, hasParent);
      if hasParent || t.left.Node? || t.right.Node? then
        && r == (if t.left.Node? then t.left else t.right)
        && Ordered(r)
        && Contents(r) == Contents(t) - {t.topic}
        && NodeCount(r) == NodeCount(t) - 1
      else r == t
  {
    var Node(k, _, l, rt) := t;
    Irreflexive(k);
    var c := if l.Node? then l else rt;
    assert k !in Topics(c);
    assert Contents(t) - {k} == Contents(c);
  }

  /**
   * A matched node with two children takes the topic and set found by
   * traverseForMinString on its right child, which is the greatest topic there,
   * keeps its left child, and has its right child rewritten by a removeHelper
   * call with the uuid and topic swapped. Unless the right child's topic equals
   * `u`, that call changes nothing: the successor's topic then occurs twice and
   * the routing invariant is broken.
   */
  lemma RemoveTwoChildren(t: Tree, u: string, hasParent: bool)
    requires Ordered(t) && t.Node? && !(Size(t.uuids) > 1 && Has(t.uuids, u))
    requires t.left.Node? && t.right.Node?
    ensures var m := MinString(t.right);
      var r := Removed(t, u, t.topic, hasParent);
      && r == Node(m.0, m.1, t.left, Removed(t.right, m.0, u, true))
      && Less(m.0, t.topic)
      && Subscribers(t.right, m.0) == m.1
      && (t.right.topic != u ==>
           && r.right == t.right
           && Topics(r) == Topics(t) - {t.topic}
           && Occurrences(r, m.0) == 2
           && !Ordered(r))
  {
    var Node(k, _, l, rt) := t;
    var m := MinString(rt);
    Irreflexive(k);
    MinStringIsGreatest(rt);
    assert Less(m.0, k);
    if rt.topic != u {
      RemoveOffRootIsNoOp(rt, m.0, u, true);
      SidesOf(t, m.0);
      OrderedOccursOnce(rt, m.0);
      assert k !in Topics(l) && k !in Topics(rt);
      Irreflexive(m.0);
    }
  }
}
