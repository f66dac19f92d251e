/**
 * The topic index of plugins/memory/bst/bst.go read as values: the tree, what it
 * holds, the routing invariant, and the walks of Insert, Get, removeHelper and
 * traverseForMinString written as recursive functions. The methods in module Bst
 * are proved to compute exactly these functions; module BstLemmas proves what
 * they mean.
 */
module BstSpec {
  import opened Wrappers
  import opened StringOrder

  /** A Go `map[string]struct{}` used as a set of subscriber uuids; `None` is the nil map. */
  type Uuids = Option<set<string>>

  /** `len(m)`: the nil map has length 0. */
  function Size(us: Uuids): (n: nat)
    ensures n == 0 <==> us.None? || us.value == {}
  {
    if us.Some? then |us.value| else 0
  }

  /** `_, ok := m[u]`: the nil map holds nothing. */
  function Has(us: Uuids, u: string): (r: bool)
    ensures r ==> Size(us) > 0
  {
    us.Some? && u in us.value
  }

  /** What ranging over the map visits: nothing for the nil map. */
  function Members(us: Uuids): set<string>
  {
    if us.Some? then us.value else {}
  }

  /** A `*BST` pointer: `Nil` is the nil pointer, a `Node` owns its two subtrees. */
  datatype Tree = Nil | Node(topic: string, uuids: Uuids, left: Tree, right: Tree)

  /** What `NewBST` returns: a root with the empty topic, a nil map and no children. */
  function Fresh(): (t: Tree)
    ensures Sentinel(t) && Topics(t) == {""}
  {
    Node("", None, Nil, Nil)
  }

  function NodeCount(t: Tree): nat
  {
    match t
    case Nil => 0
    case Node(_, _, l, r) => 1 + NodeCount(l) + NodeCount(r)
  }

  function Topics(t: Tree): set<string>
  {
    match t
    case Nil => {}
    case Node(k, _, l, r) => {k} + Topics(l) + Topics(r)
  }

  /** How many nodes carry topic `k`. */
  function Occurrences(t: Tree, k: string): (n: nat)
    ensures n > 0 <==> k in Topics(t)
  {
    match t
    case Nil => 0
    case Node(k', _, l, r) => (if k' == k then 1 else 0) + Occurrences(l, k) + Occurrences(r, k)
  }

  /**
   * The index as a map from topic to the uuid set of the node carrying it
   * (a node higher up wins when a topic occurs twice, which the routing
   * invariant rules out).
   */
  function Contents(t: Tree): (m: map<string, Uuids>)
    ensures m.Keys == Topics(t)
  {
    match t
    case Nil => map[]
    case Node(k, us, l, r) => (Contents(r) + Contents(l))[k := us]
  }

  /** The uuid set the index holds for topic `k`, or the nil map if there is none. */
  function Subscribers(t: Tree, k: string): Uuids
  {
    if k in Contents(t) then Contents(t)[k] else None
  }

  /**
   * The routing invariant that Insert maintains: every topic in a node's `left`
   * subtree is greater than the node's topic and every topic in its `right`
   * subtree is smaller.
   */
  predicate Ordered(t: Tree)
  {
    match t
    case Nil => true
    case Node(k, _, l, r) =>
      && (forall x | x in Topics(l) :: Less(k, x))
      && (forall x | x in Topics(r) :: Less(x, k))
      && Ordered(l) && Ordered(r)
  }

  /** Every node holds a non-nil, non-empty uuid map (true of every node Insert creates). */
  predicate SetsNonEmpty(t: Tree)
  {
    match t
    case Nil => true
    case Node(_, us, l, r) => us.Some? && us.value != {} && SetsNonEmpty(l) && SetsNonEmpty(r)
  }

  /**
   * The shape `NewBST` starts with and Insert of non-empty topics keeps: the
   * root is the sentinel with the empty topic and the nil map, every other
   * node hangs below its `left` link, and the routing invariant holds.
   */
  predicate Sentinel(t: Tree)
  {
    && t.Node? && t.topic == "" && t.uuids.None? && t.right.Nil?
    && Ordered(t) && SetsNonEmpty(t.left)
  }

  /** Where the walk of Insert and Get stops: the node carrying `topic`, or `Nil`. */
  function Search(t: Tree, topic: string): (r: Tree)
    ensures r.Nil? || r.topic == topic
    ensures r.Node? ==> topic in Topics(t)
    ensures r.Node? && SetsNonEmpty(t) ==> r.uuids.Some?
  {
    match t
    case Nil => Nil
    case Node(k, _, l, r) =>
      if k == topic then t
      else if Less(k, topic) then Search(l, topic)
      else Search(r, topic)
  }

  /** What `Get` returns: the set of the node the walk stops at, or nil. */
  function Lookup(t: Tree, topic: string): (r: Uuids)
    ensures r.Some? ==> topic in Topics(t)
  {
    var n := Search(t, topic);
    if n.Nil? then None else n.uuids
  }

  /** Insert does not write into a nil map: the node it would add to, if any, has a set. */
  function InsertSafe(t: Tree, topic: string): (r: bool)
    ensures !r ==> topic in Topics(t)
    ensures SetsNonEmpty(t) ==> r
  {
    var n := Search(t, topic);
    n.Node? ==> n.uuids.Some?
  }

  /** The tree after `Insert(uuid, topic)`. */
  function Inserted(t: Tree, uuid: string, topic: string): (r: Tree)
    requires InsertSafe(t, topic)
    ensures Topics(r) == Topics(t) + {topic}
  {
    match t
    case Nil => Node(topic, Some({uuid}), Nil, Nil)
    case Node(k, us, l, r) =>
      if k == topic then Node(k, Some(us.value + {uuid}), l, r)
      else if Less(k, topic) then Node(k, us, Inserted(l, uuid, topic), r)
      else Node(k, us, l, Inserted(r, uuid, topic))
  }

  /** Where the walk of removeHelper stops: it goes `left` for smaller topics. */
  function RemoveTarget(t: Tree, topic: string): (r: Tree)
    ensures r.Nil? || r.topic == topic
  {
    match t
    case Nil => Nil
    case Node(k, _, l, r) =>
      if Less(topic, k) then RemoveTarget(l, topic)
      else if Less(k, topic) then RemoveTarget(r, topic)
      else Total(topic, k); t
  }

  /**
   * The topic and set of the node reached from `t` by following `left` links
   * until `left` is nil (traverseForMinString).
   */
  function MinString(t: Tree): (r: (string, Uuids))
    requires t.Node?
    ensures r.0 in Topics(t)
  {
    if t.left.Nil? then (t.topic, t.uuids) else MinString(t.left)
  }

  /**
   * The tree after `removeHelper(uuid, topic, parent)` on subtree `t`;
   * `hasParent` is `parent != nil`. The two-children case recurses with the
   * successor's topic as the uuid and `uuid` as the topic, as the source does.
   */
  function Removed(t: Tree, uuid: string, topic: string, hasParent: bool): (r: Tree)
    ensures t.Node? && !hasParent ==> r.Node?
  {
    match t
    case Nil => Nil
    case Node(k, us, l, rt) =>
      if Less(topic, k) then Node(k, us, Removed(l, uuid, topic, true), rt)
      else if Less(k, topic) then Node(k, us, l, Removed(rt, uuid, topic, true))
      else if Size(us) > 1 && Has(us, uuid) then Node(k, Some(us.value - {uuid}), l, rt)
      else if l.Node? && rt.Node? then
        var succ := MinString(rt);
        Node(succ.0, succ.1, l, Removed(rt, succ.0, uuid, true))
      else if !hasParent then
        (if l.Node? then l else if rt.Node? then rt else t)
      else if l.Node? then l
      else rt
  }

  /** One step of a walk down the tree: the node left behind and the side taken. */
  datatype Frame =
    | WentLeft(topic: string, uuids: Uuids, right: Tree)
    | WentRight(topic: string, uuids: Uuids, left: Tree)

  /** The whole tree, given the steps taken from the root and the subtree reached. */
  function Plug(path: seq<Frame>, sub: Tree): Tree
    decreases |path|
  {
    if path == [] then sub
    else
      var inner := Plug(path[1..], sub);
      match path[0]
      case WentLeft(k, us, r) => Node(k, us, inner, r)
      case WentRight(k, us, l) => Node(k, us, l, inner)
  }

  /** Taking one more step and plugging is plugging the step's node into the path. */
  lemma {:induction false} PlugStep(path: seq<Frame>, f: Frame, sub: Tree)
    ensures Plug(path + [f], sub) == Plug(path, Plug([f], sub))
    decreases |path|
  {
    if path != [] {
      assert (path + [f])[1..] == path[1..] + [f];
      PlugStep(path[1..], f, sub);
    }
  }
}
