# Topic index of the in-memory pub/sub broker (plugins/memory/bst)

The broker keeps, for every topic, the set of subscriber uuids registered on it.
`plugins/memory/bst/bst.go` stores this index as an unbalanced binary search
tree. Each node carries a topic string and a set of uuids (a Go
`map[string]struct{}`). The tree has three public operations:

- `Insert(uuid, topic)` adds a subscriber;
- `Get(topic)` returns the topic's set;
- `Remove(uuid, topic)` unsubscribes.

`removeHelper` and `traverseForMinString` are internal helpers. This project
models that file as it is written and proves what the code does.

Layout:

- `option.dfy` (module `Wrappers`): `Option`. It stands for Go's nil map: `None` is the nil map.
- `string_order.dfy` (module `StringOrder`): Go's `<` on strings, which is byte-wise lexicographic.
  Dafny characters are Unicode scalar values. UTF-8 keeps code-point order, so comparing characters gives the same order.
- `bst_spec.dfy` (module `BstSpec`): the tree as a value, `Tree = Nil | Node(topic, uuids, left, right)`.
  It defines the index it denotes (`Topics`, `Contents`, `Subscribers`) and the routing invariant `Ordered`.
  Each operation of the source is also written as a recursive function: `Search`/`Lookup` (the loop of Insert and Get), `Inserted` (Insert's loop), `RemoveTarget`/`Removed` (removeHelper's loop and its recursive call) and `MinString` (the recursion of traverseForMinString).
- `bst.dfy` (module `Bst`): class `BST`. Its `root` field holds the tree. `Insert`, `Get` and the module-level `RemoveHelper` are loops that mirror the source's loops; `Remove` is the single call of `RemoveHelper` with no parent.
  Each loop keeps the path it walked down. A pointer write of the source becomes putting the rewritten subtree back into that path (`Plug`).
  Each method is proved to compute the corresponding function.
- `bst_lemmas.dfy` (module `BstLemmas`): what the operations do to the index.
- `bst_scenarios.dfy` (module `BstScenarios`): concrete runs from `NewBST`.

Behaviour of the code as written, where it departs from a conventional search tree (the model follows the code):

- Insert and Get send a topic to `left` when it is GREATER than the node's topic (bst.go:29, bst.go:59).
  removeHelper goes `left` when the topic is smaller (bst.go:79).
  So on any tree that keeps Insert's ordering, Remove only ever matches the node it starts from (`RemoveOffRootIsNoOp`).
- `NewBST` returns a root with the empty topic and a nil map. Every non-empty topic is inserted below the root's `left` link.
  While the root is still that sentinel (a tree built from `NewBST` by Inserts and Removes of non-empty topics), every Remove of a non-empty topic walks to the root's nil `right` link and changes nothing (`SentinelRemove`).
  Unsubscribing "u1" from "orders" leaves both subscribers in place (`OrdersAndAlerts`).
  Remove of the empty topic makes the root take over its `left` child, and the sentinel is gone from then on.
- `Insert(u, "")` on the fresh root writes into a nil map, which panics in Go. `Insert` requires `InsertSafe`, which excludes that case.
- When the matched node has several uuids but not `uuid`, control falls through to deleting the whole node, with all of its subscribers (`RemoveUnlinks`).
- The two-children case recurses as `removeHelper(curr.topic, uuid, curr)` (bst.go:95). This passes the successor's topic as the uuid and the caller's uuid as the topic.
  Unless the right child's topic happens to equal the uuid, that call changes nothing. The successor's topic then occurs twice (`RemoveTwoChildren`, `TwoChildrenKeepsSuccessor`).
- `traverseForMinString` follows `left` links. Under Insert's ordering that reaches the GREATEST topic of the subtree (`MinStringIsGreatest`).

## Model

| member | source | states |
|---|---|---|
| Bst.BST.constructor | plugins/memory/bst/bst.go:15-17 | `NewBST`: the root is the empty topic with a nil map and no children, which is the sentinel shape |
| Bst.BST.Insert | plugins/memory/bst/bst.go:20-51 | the loop computes exactly `Inserted` of the old root; it requires that it never writes into a nil map |
| Bst.BST.Get | plugins/memory/bst/bst.go:53-70 | read-only and terminating; returns the set of the node the walk stops at, or nil; under the routing invariant, exactly the index's set for the topic |
| Bst.BST.Remove | plugins/memory/bst/bst.go:72-74 | the new root is `Removed` of the old root with no parent; the root node is never unlinked |
| Bst.RemoveHelper | plugins/memory/bst/bst.go:76-128 | the loop with parent tracking, plus its recursive call, computes exactly `Removed` |
| StringOrder.Less | plugins/memory/bst/bst.go:29 | Go's `<` on strings (also `<`/`>` at bst.go:59, 63, 79, 82): a strict order, so it never holds between equal strings; its irreflexivity, asymmetry, transitivity and totality are the lemmas below |
| StringOrder.Transitive | plugins/memory/bst/bst.go:79-84 | Go's string `<` is transitive, which the ordering lemmas rely on |
| BstSpec.Fresh | plugins/memory/bst/bst.go:15-17 | the value `&BST{}` that `NewBST` returns: the empty topic, a nil map, no children; it has the sentinel shape and holds only the empty topic |
| BstSpec.Size | plugins/memory/bst/bst.go:86 | `len(curr.uuids)`: zero exactly for a nil or empty map |
| BstSpec.Has | plugins/memory/bst/bst.go:87 | the membership test `_, ok := curr.uuids[uuid]`: it can only succeed on a non-empty map |
| BstSpec.InsertSafe | plugins/memory/bst/bst.go:15-25 | Insert's write `curr.uuids[uuid]` lands on a non-nil map; it can fail only when the topic is already in the tree (the sentinel root's nil map), and never on a tree whose sets are all non-empty |
| BstSpec.Lookup | plugins/memory/bst/bst.go:53-70 | Get's loop: a non-nil result comes from a node carrying the topic |
| BstSpec.Search | plugins/memory/bst/bst.go:53-67 | the walk of Get and Insert stops at nil or at a node carrying the searched topic |
| BstSpec.RemoveTarget | plugins/memory/bst/bst.go:77-85 | removeHelper's reversed walk stops at nil or at a node carrying the topic |
| BstSpec.Inserted | plugins/memory/bst/bst.go:20-51 | after Insert, the tree's topics are the old topics plus the inserted one |
| BstSpec.Removed | plugins/memory/bst/bst.go:76-128 | removal started at the root (no parent) never leaves a nil root |
| BstSpec.MinString | plugins/memory/bst/bst.go:131-136 | `traverseForMinString` returns the topic of a node of the subtree |
| BstSpec.Occurrences | plugins/memory/bst/bst.go:5-6 | counts the nodes carrying a topic; it is positive exactly when the topic is in the tree |
| BstSpec.Contents | plugins/memory/bst/bst.go:4-13 | the index as a map from topic to uuid set; its keys are exactly the tree's topics |
| StringOrder.Total | plugins/memory/bst/bst.go:59-66 | any two strings compare equal, less or greater, so Get's three tests always decide a step |
| BstLemmas.OrderedOccursOnce | plugins/memory/bst/bst.go:28-49 | under the routing invariant, each topic occurs in exactly one node |
| BstLemmas.SearchFinds | plugins/memory/bst/bst.go:53-70 | under the routing invariant, the walk finds a node if and only if the topic is in the tree |
| BstLemmas.LookupIsSubscribers | plugins/memory/bst/bst.go:53-70 | under the routing invariant, Get returns the topic's set, and nil when no node carries the topic |
| BstLemmas.InsertAtTarget | plugins/memory/bst/bst.go:24-45 | Insert either adds the uuid to the existing node, creating no node, or hangs a new childless leaf with exactly the singleton set where the walk ended |
| BstLemmas.InsertIdempotent | plugins/memory/bst/bst.go:24-27 | repeating `Insert(u, t)` leaves the tree unchanged |
| BstLemmas.InsertKeepsOrdered | plugins/memory/bst/bst.go:28-49 | Insert preserves the routing invariant: greater topics on the left, smaller on the right |
| BstLemmas.InsertContents | plugins/memory/bst/bst.go:20-51 | on an ordered tree, Insert adds the uuid to the topic's set (an absent topic gets the singleton set); every other topic keeps its set |
| BstLemmas.LookupAfterInsert | plugins/memory/bst/bst.go:20-70 | after `Insert(u, t)`, `Get(t)` holds `u` and the old members; Get of every other topic is unchanged |
| BstLemmas.InsertKeepsSentinel | plugins/memory/bst/bst.go:15-51 | while the root is still the sentinel `NewBST` returns, Insert of a non-empty topic is safe, goes below the root's `left` link, and keeps the sentinel shape |
| BstLemmas.SentinelRejectsEmptyTopic | plugins/memory/bst/bst.go:15-25 | on the sentinel root, `Insert(u, "")` would write into the nil map |
| BstLemmas.SentinelLookup | plugins/memory/bst/bst.go:53-69 | while the root is still the sentinel (a tree built from `NewBST` by Inserts and Removes of non-empty topics), Get returns nil exactly for the empty topic or an absent topic, and otherwise a non-empty set |
| BstLemmas.SentinelRemove | plugins/memory/bst/bst.go:76-111 | while the root is still the sentinel (a tree built from `NewBST` by Inserts and Removes of non-empty topics), Remove of a non-empty topic changes nothing; Remove of the empty topic makes the root take over its `left` child |
| BstLemmas.MinStringIsGreatest | plugins/memory/bst/bst.go:131-136 | under the routing invariant, following `left` links reaches the greatest topic and returns that topic's set |
| BstLemmas.RemoveMissIsNoOp | plugins/memory/bst/bst.go:77-85 | when removeHelper's walk reaches a nil child, the tree is unchanged |
| BstLemmas.RemoveOffRootIsNoOp | plugins/memory/bst/bst.go:77-85 | under Insert's ordering, removeHelper never reaches a node below where it starts, so it changes nothing for any other topic |
| BstLemmas.RemovePartial | plugins/memory/bst/bst.go:86-90 | when the matched set has more than one member and holds the uuid, only that uuid is deleted; the shape, the ordering and every other topic stay |
| BstLemmas.RemoveUnlinks | plugins/memory/bst/bst.go:96-124 | in a structural delete of a node with at most one child, the node is replaced by its child or by nil, so the topic and all its uuids vanish and the ordering stays; a childless root is left as it is |
| BstLemmas.RemoveTwoChildren | plugins/memory/bst/bst.go:93-95 | a node with two children takes the topic and set of the greatest topic of its right subtree (found by `traverseForMinString`) and keeps its left child; its right child is rewritten by the swapped-argument call, which misses unless the right child's topic equals the uuid, so the successor's topic then occurs twice and the ordering breaks |
| BstScenarios.OrdersAndAlerts | plugins/memory/bst/bst.go:20-85 | after inserting (u1, orders), (u2, orders) and (u1, alerts): Get(orders) = {u1, u2}, Get(alerts) = {u1}, Get(billing) = nil; `Remove(u1, orders)` then changes nothing |
| BstScenarios.TwoChildrenKeepsSuccessor | plugins/memory/bst/bst.go:93-111 | the root absorbs "m" (children "z" and "b"); removing "m" then leaves "b" both at the root and below it |
| BstScenarios.SixTopicsShape | plugins/memory/bst/bst.go:20-51 | inserting m, b, z, a, c, y from `NewBST` builds "m" with "z" and "y" on its left and "b", "c", "a" on its right |
| BstScenarios.SixTopicsRemoveM | plugins/memory/bst/bst.go:76-85 | in that tree "m" has two children, but `Remove(i1, m)` changes nothing and Get still finds the uuids |

## Left out

- Aliasing of the uuid maps is not modelled: sets are values.
  `Get` hands out the live map, and a successor copy makes two nodes share one map (bst.go:57, bst.go:94).
  So a later in-place `delete` through one alias, or a caller's write into the map Get returned, is not reflected in the other holders.
  This diverges even inside one Remove call. Take the root "z" with {a}, left child "zz" with {b}, right child "q" with {q, w}, and `Remove("q", "z")`.
  In Go the root copies the "q" node's map (bst.go:94); the swapped call (bst.go:95) matches "q" and deletes uuid "q" from that shared map (bst.go:88), so the root ends with {w}.
  `Removed` leaves the root with {q, w} and only the right child with {w}.
- The Go panic on writing into a nil map is not modelled. `Insert` requires `InsertSafe` instead.
  On a tree built from `NewBST`, this rules out only `Insert(u, "")` while the sentinel root is still in place.
- The pointer tests `parent.left == curr` and `parent.right == curr` (bst.go:112, bst.go:118) are modelled as "the side the walk took".
  Nodes are never shared, so one of the two tests always holds.
- RemoveTwoChildren: when the right child's topic equals the uuid, the swapped-argument call does match that child. The lemma then states only that the right child is rewritten by that call; which of the removeHelper cases follows is left to `Removed`, which also does not reflect that the rewrite reaches the root's set through the shared map (see the aliasing line above).
- Go compares strings as UTF-8 bytes. Strings that are not valid UTF-8 cannot be represented as Dafny strings.
- The `Storage` interface that `NewBST` returns is not part of this model. `BST` is modelled directly.
- Concurrency is not modelled: the structure does no locking and its callers serialise access.
- service/http/config.go (HTTP service configuration) is not part of this model. It is configuration plumbing that depends on the standard library's network and file-system calls.
- Balancing and running time are not modelled: the tree is deliberately unbalanced.
