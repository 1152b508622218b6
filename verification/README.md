# A string map over a splay tree, in Dafny

This project models the header `src/tree.hpp`: the generic splay tree
`SplayTree<T>`, the `KeyValuePair` element type that is compared by key only,
and the string-to-string `TreeMap` built from the two. All three are modelled
as pure values and functions, and their properties are proved.

- **Nodes.** A node is a `Tree` value, `Leaf | Node(left, kv, right)`. Parent
  pointers are dropped.
- **Node identity.** The C++ code reaches a node through pointers. Here a node
  is named by its *path*, the sequence of `Left`/`Right` steps from the root
  (`paths.dfy`).
- **Relinking.** `replaceNode` rewrites the parent's child slot, or the root.
  It becomes `Graft`, which replaces the subtree at a path.
- **Splaying.** `splay` is the same `while` loop, written as a recursion over
  rounds (`splay.dfy`):
  - `Round(p)` is the position of the topmost node that one round touches:
    the grandparent, or the root parent for a final zig.
  - `SplayStep` does the zig, zig-zig or zig-zag rotations there.
  - As in the loop, rounds pair nodes from the target upward. A lone zig
    therefore happens only at the real root, which matters when the depth is
    odd (`Splaying.OddDepthPairsFromBelow`).
- **Operations.** Operations that restructure the tree return the new tree,
  and the map's operations return the new map. Lookups are included, because
  `findNode` splays.
- **Invariant.** The search-tree invariant `Bst` is what the C++ class keeps.
  It is a precondition and a postcondition of the public operations:
  `FindNode`, `Contains`, `Insert` and `Erase` of the tree, and `Insert`,
  `Get` and `DeleteKey` of the map (as `TreeMaps.Valid`). The public
  `RootData` needs no `Bst`, because it only reads the root. The internal
  steps (the rotations, `Splay`, `Place`, `Splice`, `SubtreeMin`) do not
  require it either. The invariant passes through them by separate
  contracts: `Bst(t) ==> Bst(r)` on the rotations, `Splaying.SplayKeepsBst`,
  `SplayTree.PlaceCorrect` and `SplayTree.Unlink`.
- **Search pair.** The one-argument `KeyValuePair` constructor
  (src/tree.hpp:17-18) gives `get` and `deleteKey` their search pair. It is
  written inline as `KeyValuePair(key, "")` in `TreeMaps.Get` and
  `TreeMaps.DeleteKey`.
- **Views of a tree** (`trees.dfy`):
  - `InOrder(t)`: the elements from left to right.
  - `KeySet(t)`: the set of keys.
  - `Content(t)`: the key-to-value map that the in-order sequence denotes.
  - `Size(t)`: the node count.
  - `BstIffSorted`: `Bst` holds exactly when the keys of `InOrder(t)` strictly
    increase.
- **Keys.** Keys are `string`s ordered by `Keys.Less`. It is the lexicographic
  order of `std::string`'s `operator<`, proved to be a strict total order.

Modules, one per file:
- `Keys`: string order.
- `Pairs`: `KeyValuePair`.
- `Trees`: the tree and its views.
- `Paths`: node positions and relinking.
- `Rotations`: `rotateLeft` and `rotateRight`.
- `Splaying`: `splay`.
- `SplayTree`: the public tree operations, with `subtreeMin` and the splice
  of `erase`.
- `TreeMaps`: `TreeMap`, sequences of calls, and the test scenarios.

## Model

| member | source | states |
|---|---|---|
| Keys.LessIrreflexive | src/tree.hpp:21-23 | no key is below itself |
| Keys.LessTransitive | src/tree.hpp:21-23 | the key order is transitive |
| Keys.LessTrichotomy | src/tree.hpp:21-35 | any two keys are related by exactly one of `<`, `==`, `>` |
| Pairs.PairOrder | src/tree.hpp:20-35 | the five pair comparisons look at keys only. Exactly one of `<`, `==`, `>` holds; `<=` and `>=` are the unions; `>` is `<` with the arguments swapped; changing values changes no comparison |
| Rotations.RotateLeft | src/tree.hpp:64-83 | the in-order sequence is unchanged and the search-tree order is kept. Without a right child nothing changes; otherwise the right child becomes the subtree root, with the old root as its left child |
| Rotations.RotateRight | src/tree.hpp:85-104 | the mirror image of `RotateLeft`: in-order sequence kept, no-op without a left child, left child lifted with the old root as its right child |
| Rotations.RotationsInverse | src/tree.hpp:64-104 | a left rotation followed by a right one is the identity, and vice versa |
| Paths.GraftInOrder | src/tree.hpp:151-161 | `Paths.Graft` models `replaceNode`: relinking the slot of a node to a new subtree puts that subtree's elements between the unchanged elements before and after the node |
| Paths.GraftSubtree | src/tree.hpp:151-161 | after the relink the node's position holds the new subtree |
| Splaying.SplayStep | src/tree.hpp:113-138 | a zig, zig-zig or zig-zag round keeps the in-order sequence and leaves `x` on top of the rotated subtree |
| Splaying.SplayRound | src/tree.hpp:109-139 | one loop round in the whole tree: the in-order sequence is unchanged and `x` now sits at the round's top position, one or two levels higher |
| Splaying.Splay | src/tree.hpp:106-140 | splaying the node at a path keeps the in-order sequence and ends with that node's element at the root |
| Splaying.SplayKeepsBst | src/tree.hpp:106-140 | splaying preserves the search-tree invariant (both ways), the content and the node count |
| Splaying.OddDepthPairsFromBelow | src/tree.hpp:109-139 | at depth three the loop does a zig-zig below the root first and a zig at the root last; the exact resulting shape |
| SplayTree.Search | src/tree.hpp:213-228 | the search stops at a node of a non-empty tree. It stops on a hit exactly when the key is stored, and a hit's key is the searched key. On a miss, the stop node's child slot toward the key is empty |
| SplayTree.SearchBrackets | src/tree.hpp:217-228 | every element in order before the stopping node has a smaller key than the searched one, and every element after it a larger key |
| SplayTree.FindNode | src/tree.hpp:213-233 | a node is found exactly when the key is stored. The found element has the key and its stored value and is the new root. The content, the in-order sequence, the search-tree order and emptiness are unchanged |
| SplayTree.MissSplaysNeighbour | src/tree.hpp:230-232 | on a miss in a non-empty tree the new root holds the missing key's in-order neighbour: the least stored key above it or the greatest below it |
| SplayTree.Contains | src/tree.hpp:235-237 | true exactly when the key is stored. The content, the in-order sequence and the search-tree order are unchanged, and on a hit the key's stored pair is splayed to the root |
| SplayTree.RootData | src/tree.hpp:265-267 | none exactly for the empty tree, otherwise the element at the root's in-order position |
| SplayTree.Place | src/tree.hpp:179-207 | the returned path names the node that now holds the inserted pair |
| SplayTree.PlaceCorrect | src/tree.hpp:184-207 | the descent-and-link step keeps the search-tree order, adds exactly the new key, maps it to the new value, keeps every other key's value, and adds a node only for a key not already stored |
| SplayTree.Insert | src/tree.hpp:178-210 | after `insert` the root holds the pair, the search-tree order holds, and the content is the old content updated at the key. The node count grows by one exactly when the key is new |
| SplayTree.SubtreeMin | src/tree.hpp:144-149 | none exactly for an empty subtree; otherwise the path to a node with no left child, with nothing before it in order, holding the first in-order element |
| SplayTree.SubtreeMinIsLeast | src/tree.hpp:144-149 | in a search tree that element's key is below every other key of the subtree |
| SplayTree.Splice | src/tree.hpp:250-260 | the successor splice of a root with two children yields exactly the root's left elements followed by its right elements |
| SplayTree.Unlink | src/tree.hpp:246-262 | in all three cases, removing the root keeps the search-tree order and removes exactly the root's key from the content |
| SplayTree.Erase | src/tree.hpp:240-263 | `erase` removes exactly the key and keeps every other key's value and the search-tree order. An absent key leaves the in-order sequence alone. The node count drops by one exactly when the key was stored |
| TreeMaps.Empty | src/tree.hpp:279 | a newly constructed map is valid, holds nothing and has no nodes |
| TreeMaps.FreshIsEmpty | src/tree.hpp:279 | a valid map with no content is exactly the newly constructed map, so the scenarios' starting map is `TreeMap map;` |
| TreeMaps.Insert | src/tree.hpp:282-285 | the map's content is updated at the key, the written pair is at the root, and the node count grows only for a new key |
| TreeMaps.Get | src/tree.hpp:288-296 | the stored value for a stored key (then splayed to the root), the empty string for a missing one; the content is unchanged |
| TreeMaps.DeleteKey | src/tree.hpp:299-302 | the content loses exactly the key; the node count drops only if the key was there |
| TreeMaps.PutThenGet | src/tree.hpp:282-296 | a get right after a put of a key returns the value put |
| TreeMaps.OverwriteKeepsSize | src/tree.hpp:193-198 | putting an existing key again makes get return the new value and adds no node |
| TreeMaps.DeleteThenGet | src/tree.hpp:288-302 | after deleting a key, get returns the empty string for it and the old answer for every other key |
| TreeMaps.DeleteAbsentIsNoOp | src/tree.hpp:240-242 | deleting a missing key changes neither the content nor the in-order sequence |
| TreeMaps.EmptyValueLooksMissing | src/tree.hpp:288-296 | get cannot tell a key stored with the empty value from a missing key |
| TreeMaps.RepeatedGet | src/tree.hpp:213-227 | a get of a stored key splays it to the root, and a second get returns the same stored value |
| TreeMaps.RunMatchesSpec | src/tree.hpp:274-303 | after any sequence of puts, deletes and gets, the map holds what a plain map holds after the same calls, and get reads from it |
| TreeMaps.PutAllContents | src/tree.hpp:282-285 | putting distinct new keys adds exactly those keys with their values, keeps the old entries, and adds one node per key |
| TreeMaps.DeleteAllContents | src/tree.hpp:299-302 | deleting distinct stored keys removes exactly those keys and one node each |
| TreeMaps.BulkContents | tests/tree_test.cpp:64-92 | putting n distinct keys into a new map and deleting m of them leaves n - m nodes and keys. The survivors keep their values and the deleted keys are gone |
| TreeMaps.BulkPutDelete | tests/tree_test.cpp:64-92 | the same, read through get: survivors read their values, deleted keys read as empty |
| TreeMaps.ThreeKeys | tests/tree_test.cpp:14-19 | the three puts of the basic test give exactly the three-entry map |
| TreeMaps.ExistingKeysSection | tests/tree_test.cpp:21-25 | the three stored keys read back their values |
| TreeMaps.MissingKeysSection | tests/tree_test.cpp:27-30 | two keys never put read as empty |
| TreeMaps.DemoRun | src/tree.cpp:4-18 | the demo's three lookups return `valueOne`, `valueThree` and the empty string; after its delete the map holds exactly the other two keys |
| TreeMaps.OverwriteSection | tests/tree_test.cpp:39-45 | overwriting `user` reads `Brad`, then `Bellinder`, and the tree has one node |
| TreeMaps.DeleteSection | tests/tree_test.cpp:47-54 | `user` reads `Brad` before the delete and empty after it |
| TreeMaps.DeleteMissingSection | tests/tree_test.cpp:56-61 | deleting a missing key leaves `user` reading `Brad` |
| TreeMaps.FiveFruits | tests/tree_test.cpp:64-72 | five out-of-order puts give exactly the five-entry map |
| TreeMaps.AllFruitsSection | tests/tree_test.cpp:74-80 | all five keys read back their values |
| TreeMaps.ThreeFruits | tests/tree_test.cpp:82-84 | deleting `banana` and `apple` leaves exactly the other three entries |
| TreeMaps.DeleteFruitsSection | tests/tree_test.cpp:82-92 | after the two deletes those keys read empty and the others keep their values |

## Left out

- `clear` and the destructor (src/tree.hpp:163-175) only free memory. Values
  are garbage collected here.
- Parent pointers and their upkeep are not modelled, because a node's
  position is its path. This covers the `parent` assignments in the
  rotations, in `replaceNode` and in `erase`. The model therefore does not
  state that the parent links stay consistent.
- The second `splay(node)` in `erase` (src/tree.hpp:244) is not modelled.
  `findNode` has already moved the node to the root, so that call changes
  nothing.
- `SplayTree<T>` is modelled only at its one instantiation,
  `T = KeyValuePair`. The tree code needs only a total order from `T`.
- Allocation failure of `new` is not modelled.
- The amortised logarithmic cost of splaying is a performance property, not
  behaviour.
- The benchmarks (tests/tree_test.cpp:99-153) are timing loops. Their
  behaviour, putting distinct keys and reading them back, is covered by
  `TreeMaps.PutAllContents`.
- The demo's printing to standard output (src/tree.cpp:11-13) becomes the
  returned strings of `TreeMaps.DemoRun`.
- Keys.Less compares characters by Unicode code point. `std::string`
  compares bytes as unsigned characters. The two orders agree on UTF-8
  encoded strings. Byte strings that are not valid UTF-8 are not modelled.
- SplayTree.Splice states the resulting elements and their order, not the
  exact shape. The shape is fixed by its definition: the successor takes the
  root's place, and when it is deeper its own right subtree takes its old
  place.
- A stored empty value reads, through `get`, exactly like a missing key,
  because `get` answers the empty string for both. The model keeps this
  behaviour and states it as `TreeMaps.EmptyValueLooksMissing`.
