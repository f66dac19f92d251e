/**
 * plugins/memory/bst/bst.go: the `BST` type and its loops. The tree is held as a
 * value in `root`; each loop walks down from the root keeping the path it took,
 * and the pointer writes of the source become putting the rewritten subtree
 * back into that path (`Plug`).
 */
module Bst {
  import opened Wrappers
  import opened StringOrder
  import opened BstSpec
  import BstLemmas

  class BST {
    /** The root node; the Go value of type `*BST` is this node itself. */
    var root: Tree

    /** The root pointer is never nil: Remove never unlinks the root node. */
    ghost predicate Valid()
      reads this
    {
      root.Node?
    }

    /** `NewBST`: a root with the empty topic, a nil uuid map and no children. */
    constructor ()
      ensures Valid() && root == Fresh() && Sentinel(root)
    {
      root := Fresh();
    }

    /** `Insert(uuid, topic)`. */
    method Insert(uuid: string, topic: string)
      requires Valid() && InsertSafe(root, topic)
      modifies this
      ensures Valid()
      ensures root == Inserted(old(root), uuid, topic)
    {
      var curr := root;
      var path: seq<Frame> := [];
      while true
        invariant curr.Node? && root == old(root)
        invariant InsertSafe(curr, topic)
        invariant Inserted(root, uuid, topic) == Plug(path, Inserted(curr, uuid, topic))
        decreases curr
      {
        if curr.topic == topic {
          root := Plug(path, curr.(uuids := Some(curr.uuids.value + {uuid})));
          return;
        }
        if Less(curr.topic, topic) {
          if curr.left.Nil? {
            root := Plug(path, curr.(left := Node(topic, Some({uuid}), Nil, Nil)));
            return;
          }
          var step := WentLeft(curr.topic, curr.uuids, curr.right);
          PlugStep(path, step, Inserted(curr.left, uuid, topic));
          path, curr := path + [step], curr.left;
        } else {
          if curr.right.Nil? {
            root := Plug(path, curr.(right := Node(topic, Some({uuid}), Nil, Nil)));
            return;
          }
          var step := WentRight(curr.topic, curr.uuids, curr.left);
          PlugStep(path, step, Inserted(curr.right, uuid, topic));
          path, curr := path + [step], curr.right;
        }
      }
    }

    /**
     * `Get(topic)`: read-only. Returns the set of the node the walk stops at, or
     * nil; on a tree that keeps the routing invariant that is exactly the set the
     * index holds for `topic`.
     */
    method Get(topic: string) returns (r: Uuids)
      ensures r == Lookup(root, topic)
      ensures Ordered(root) ==> r == Subscribers(root, topic)
    {
      if Ordered(root) {
        BstLemmas.LookupIsSubscribers(root, topic);
      }
      var curr := root;
      while curr.Node?
        invariant Lookup(curr, topic) == Lookup(root, topic)
        decreases curr
      {
        if curr.topic == topic {
          return curr.uuids;
        }
        if Less(curr.topic, topic) {
          curr := curr.left;
          continue;
        }
        // the remaining case, `curr.topic > topic`
        curr := curr.right;
      }
      return None;
    }

    /** `Remove(uuid, topic)`: removeHelper from the root, with no parent. */
    method Remove(uuid: string, topic: string)
      requires Valid()
      modifies this
      ensures Valid()
      ensures root == Removed(old(root), uuid, topic, false)
    {
      root := RemoveHelper(root, uuid, topic, false);
    }
  }

  /**
   * `removeHelper(uuid, topic, parent)` run on subtree `t`, returning the subtree
   * as it is afterwards; `hasParent` is `parent != nil`. The walk goes `left`
   * when `topic` is smaller than the node's topic.
   */
  method RemoveHelper(t: Tree, uuid: string, topic: string, hasParent: bool) returns (r: Tree)
    ensures r == Removed(t, uuid, topic, hasParent)
    decreases NodeCount(t)
  {
    var curr := t;
    var parent := hasParent;
    var path: seq<Frame> := [];
    while curr.Node?
      invariant Plug(path, curr) == t
      invariant NodeCount(curr) <= NodeCount(t)
      invariant Removed(t, uuid, topic, hasParent) == Plug(path, Removed(curr, uuid, topic, parent))
      decreases curr
    {
      if Less(topic, curr.topic) {
        var step := WentLeft(curr.topic, curr.uuids, curr.right);
        PlugStep(path, step, curr.left);
        PlugStep(path, step, Removed(curr.left, uuid, topic, true));
        path, parent, curr := path + [step], true, curr.left;
      } else if Less(curr.topic, topic) {
        var step := WentRight(curr.topic, curr.uuids, curr.left);
        PlugStep(path, step, curr.right);
        PlugStep(path, step, Removed(curr.right, uuid, topic, true));
        path, parent, curr := path + [step], true, curr.right;
      } else {
        if Size(curr.uuids) > 1 && Has(curr.uuids, uuid) {
          // only this uuid goes; the node stays
          return Plug(path, curr.(uuids := Some(curr.uuids.value - {uuid})));
        }
        var replacement: Tree;
        if curr.left.Node? && curr.right.Node? {
          // copy the successor up, then remove it below: note the swapped arguments
          var succ := MinString(curr.right);
          var right := RemoveHelper(curr.right, succ.0, uuid, true);
          replacement := Node(succ.0, succ.1, curr.left, right);
        } else if !parent {
          // the root takes over its only child, or stays when it has none
          if curr.left.Node? {
            replacement := curr.left;
          } else if curr.right.Node? {
            replacement := curr.right;
          } else {
            replacement := curr;
          }
        } else if curr.left.Node? {
          replacement := curr.left;
        } else {
          replacement := curr.right;
        }
        return Plug(path, replacement);
      }
    }
    return t;
  }
}
