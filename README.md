# hobbes prefix tree, modelled and verified in Dafny

hobbes keeps a generic prefix tree, `prefix_tree<K, V, KMap>` in
`include/hobbes/util/trie.H`, for dictionaries whose keys are sequences of key
elements (name and type lookups, for instance). Each node `prefix_tree_node` has
a child map from one key element to the child node, and may hold a value. The
tree supports these operations:

- `insert(k, v)` creates every missing node along the path `k` (`makeNode`) and
  stores `v` there;
- `lookup(k)` walks the path without creating anything (`findNode`) and returns
  the value, or null;
- `values(vs)` appends every stored value to `vs` in pre-order: a node's own
  value, then each child's subtree in turn. `values()` does the same into an
  empty vector;
- incremental search uses `rootPoint`, `moveTo`, `keysAt`, `keyPointsAt` and
  `valueAt` over opaque "points", which are node pointers.

The model is imperative, like the source:

- `Trie.Node` is a class with the two real fields `children: map<K, Node>` and
  `value: Option<V>`. A ghost constant names the path the node stands for.
- `Trie.PrefixTree` is a class holding the root node, plus ghost bookkeeping:
  - `nodeAt`, the node of every path that has one;
  - `kidsAt` and `valAt`, each path's child map and value as plain values;
  - `Repr`, the objects that make up the tree.
- `Valid()` ties the ghost maps to the nodes' real fields and requires the tree
  shape stated in `TrieShape.Shaped`:
  - the root is the empty path's node;
  - a node has a child under `c` exactly when its path extended by `c` has a node,
    and that child is that node.
- `Contents()` is the abstract dictionary, a map from key paths to values. Every
  operation is specified against it.
- `makeNode` and `findNode` are loops with invariants; `values` is a recursive
  method with a loop over the child map. `keysAt` and `keyPointsAt` are loops over
  the child map.
- The structural arguments are lemmas on plain maps and sequences, in module
  `TrieShape` (`shape.dfy`). Examples of use are in `TrieScenarios`
  (`scenarios.dfy`).
- `Optional` (`option.dfy`) holds the `Option` type, the model of the source's
  `MaybeV`, and `Get`, a map lookup that returns an `Option`.

Lookup, findNode, values and the point operations have no `modifies` clause, so
Dafny itself checks that they change nothing.

## Model

| member | source | states |
|---|---|---|
| Trie.Node.constructor | include/hobbes/util/trie.H:24-25 | a new node has an empty child map and no value |
| Trie.Node.Values | include/hobbes/util/trie.H:27-35 | appends to `vs` the value of every path under this node that holds one, each exactly once, reported by its key path. Every appended key continues the node's path. The order is a pre-order: ancestors come before descendants, and the keys under any one path form one contiguous block. |
| Trie.PrefixTree.constructor | include/hobbes/util/trie.H:71-72 | the new tree is valid, has only the root (empty path) node, and its contents are empty |
| Trie.PrefixTree.FindNode | include/hobbes/util/trie.H:58-69 | returns the node of path `k` when the path has one, and null otherwise (the walk stops at the first missing child) |
| Trie.PrefixTree.AddChild | include/hobbes/util/trie.H:48-50 | under key `c` where `r` has no child: a fresh, empty node becomes the node of `p + [c]`, a path that had none. Every other path keeps its node and value, and the tree stays valid. |
| Trie.PrefixTree.AddChildValid | include/hobbes/util/trie.H:48-50 | changing only the parent's child map, adding a fresh empty node and updating the ghost maps accordingly keeps the tree valid |
| Trie.PrefixTree.ChildOrNew | include/hobbes/util/trie.H:48-52 | one step of makeNode: returns the node of `p + [c]`, which exists afterwards. It is the old node when that path had one. The set of paths gains exactly `p + [c]`, every existing path keeps its node, the contents are unchanged, and any new objects are fresh. |
| Trie.PrefixTree.MakeNode | include/hobbes/util/trie.H:45-55 | returns the node of `k`. The new paths are exactly the prefixes of `k`, every existing path keeps its node, the contents are unchanged, and the tree stays valid. |
| Trie.PrefixTree.SetValue | include/hobbes/util/trie.H:80 | storing `v` in the node of `k` makes the contents hold `v` at `k`. Every other key is unchanged, and no path is added. |
| Trie.PrefixTree.Insert | include/hobbes/util/trie.H:79-81 | afterwards the contents are the old contents with `k` mapped to `v` (other keys unchanged, an old value overwritten). Every prefix of `k` has a node, no other path gains one, every existing path keeps its node, and new objects are fresh. |
| Trie.PrefixTree.Lookup | include/hobbes/util/trie.H:84-87 | returns the value stored for `k`, or None when there is none |
| Trie.PrefixTree.LookupNone | include/hobbes/util/trie.H:84-87 | lookup finds nothing exactly when `k` has no node or its node holds no value |
| Trie.PrefixTree.ValuesInto | include/hobbes/util/trie.H:98-100 | keeps `vs` and appends every stored value exactly once, paired with its key. As many values are appended as there are stored keys, and every stored value is among them. The keys are in pre-order: ancestors first, each subtree contiguous. |
| Trie.PrefixTree.Values | include/hobbes/util/trie.H:102-106 | returns every stored value exactly once, paired with its key, starting from an empty sequence. There are as many values as stored keys, every stored value is among them, and the keys are in pre-order. |
| Trie.PrefixTree.RootPoint | include/hobbes/util/trie.H:110 | returns the point of the empty path |
| Trie.PrefixTree.MoveTo | include/hobbes/util/trie.H:112-116 | from the point of `at`, returns the point of `at + [c]`, or null when that path has no node |
| Trie.PrefixTree.ValueAt | include/hobbes/util/trie.H:143-145 | returns the value stored at the point's path, or None |
| Trie.PrefixTree.ChildPoint | include/hobbes/util/trie.H:112-116 | `c` is a child key of the point of `at` exactly when `at + [c]` has a point, and the child is that point (what moveTo returns) |
| Trie.PrefixTree.KeysAt | include/hobbes/util/trie.H:119-125 | keeps `ks` and appends exactly the child keys of `base`, each once |
| Trie.PrefixTree.KeyPointsAt | include/hobbes/util/trie.H:135-141 | keeps `kps` and appends exactly one pair per child key of `base`: the key and its child point |
| Trie.IncrementalLookup | include/hobbes/util/trie.H:108-116 | rootPoint, then moveTo along `k` until a null point, then valueAt: finds exactly what lookup finds |
| TrieScenarios.InsertThenLookup | include/hobbes/util/trie.H:79-87 | after insert, looking up the inserted key gives `v`, and any other key gives what it gave before |
| TrieScenarios.InsertTwice | include/hobbes/util/trie.H:79-81 | after two inserts at the same key, lookup gives the second value and the contents hold only it there |
| TrieScenarios.StrictPrefix | include/hobbes/util/trie.H:79-87 | after inserting `k` into an empty tree, findNode succeeds on a strict prefix of `k` but lookup of it finds nothing |
| TrieScenarios.FindAfterInsert | include/hobbes/util/trie.H:45-69 | after insert, findNode succeeds on every prefix of the inserted key |
| TrieScenarios.PointsSurviveInsert | include/hobbes/util/trie.H:45-55 | a point found before an insert, and the root point, are the same after it, because insert only adds nodes |
| TrieShape.PrefixHasNode | include/hobbes/util/trie.H:58-69 | in a tree shape, every prefix of a path with a node has a node, whose child under the next key element is the next prefix's node |
| TrieShape.AbsentPrefix | include/hobbes/util/trie.H:61-63 | a path with a prefix that has no node has no node itself, so findNode may stop at the first missing child |
| TrieShape.AddChildShaped | include/hobbes/util/trie.H:48-50 | adding a new child under a key the parent has no child for keeps the tree shape, and the new path is new |
| TrieShape.BelowShrinks | include/hobbes/util/trie.H:32-34 | a child's subtree is strictly smaller than its parent's, so the recursive walk of values terminates |
| TrieShape.DistinctCard | include/hobbes/util/trie.H:98-106 | a repetition-free sequence of keys is as long as the set of its keys, so values lists as many values as there are stored keys |
| TrieShape.AppendSubtree | include/hobbes/util/trie.H:32-34 | appending the keys collected under a not-yet-visited child keeps the keys distinct, ancestors first, and under the node |
| TrieShape.AppendContiguous | include/hobbes/util/trie.H:32-34 | appending the pre-order walk of a not-yet-visited child to a contiguous walk keeps every subtree's keys contiguous |
| TrieShape.AppendValues | include/hobbes/util/trie.H:32-34 | the values appended by successive walks line up with their keys |
| TrieShape.CollectedStep | include/hobbes/util/trie.H:32-34 | after also walking child `c`, every stored key under a visited child has been collected |
| TrieShape.CollectedStart | include/hobbes/util/trie.H:28-30 | a walk starts with the node's own value, when it has one |
| TrieShape.CollectedChild | include/hobbes/util/trie.H:32-34 | appending one child's walk extends the walk of the node by that child |
| TrieShape.CollectedAll | include/hobbes/util/trie.H:27-35 | once every child is visited, the walk has collected exactly the stored keys that continue the node's path, without repetition and in pre-order |
| TrieShape.StoredNewPath | include/hobbes/util/trie.H:48-51 | a new path without a value leaves the contents unchanged |
| TrieShape.StoredSet | include/hobbes/util/trie.H:80 | giving a path a value sets that key in the contents and changes nothing else |
| TrieShape.PrefixesStep | include/hobbes/util/trie.H:47-53 | the prefixes of `k[..i+1]` are those of `k[..i]` plus `k[..i+1]` |
| TrieShape.PrefixesExtend | include/hobbes/util/trie.H:47-53 | one more step of makeNode's walk adds the next prefix to the set of paths |

## Left out

- The destructors (trie.H 18-22 and 74-76), because Dafny has no explicit deallocation.
- The `void*` casts of `point_t`. A point is a `Node?` reference. `MoveTo` and `ValueAt` also take a ghost path naming the point's node, which only the proofs use.
- The `KMap` template machinery. A child map is a Dafny `map<K, Node>`.
- The iteration order of `KMap`. Each loop over a child map picks an arbitrary unvisited key, so every result holds for every order, but no particular order is promised.
- The by-value overload `keysAt(point_t)` (trie.H 127-131), because it calls `keysAt(base, &r)` with its two arguments swapped.
- Mutation through the returned value. `lookup` and `valueAt` return a `V*` into the node; the model returns `Option<V>`, a copy.
- The output vectors of `values(vs)`, `keysAt` and `keyPointsAt`, which are passed by pointer. These methods (`ValuesInto`, `KeysAt`, `KeyPointsAt`) take the old sequence and return the extended one, with no aliasing. `Values()` starts from the empty sequence, like the by-value `values()`.
- The iterator-range overloads of `insert` and `lookup`. The model has one operation each, on a `seq<K>` key, standing for both the iterator-range and the vector overloads.
- makeNode's `r->children[*i]`, which first inserts an empty entry and then fills it with `new node_t`. The model checks for the child and adds it when it is missing; no empty entry is ever observable.
- Allocation failure of `new`.
- Key elements with heap identity. The key type is `K(!new)`, so paths are plain values and the tree's quantifiers over paths do not depend on the heap.
- Storage.C and ctype.H are not part of this model.
