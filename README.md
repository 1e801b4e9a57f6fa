# MyTreeMap in Dafny

A model of `MyTreeMap`, a `java.util.Map` implemented as an unbalanced
binary search tree. The map holds a `root` node and a `size` counter; each
node holds a key, a value and two child references, and `put` updates these
fields in place. Keys are ordered by `compareTo`, and the tree is never
rebalanced.

The model has three modules:

- `Results` (results.dfy): Java `null` as `Option.None`, and thrown
  exceptions (`NullPointerException`, `UnsupportedOperationException`) as
  `Result.Err`.
- `BinaryTree` (binary_tree.dfy): the abstract value of a map, an inductive
  `Tree`. It defines the map operations as functions: the compare-driven
  descent `Lookup`, `Insert` (what `put` does to the tree), `InOrder`,
  `Keys`, `Values`, `Size`, `Height`, and the represented `map`
  (`Contents`). Lemmas prove the properties of these functions.
- `TreeMap` (tree_map.dfy): the heap model. `Node` is a class with mutable
  `key`, `value`, `left` and `right` fields. Its ghost `Repr` is the set of
  objects in its subtree, and its ghost `T` is the subtree's abstract
  value. `MyTreeMap` is a class with `size`, `root` and a ghost `Repr`.
  - `WellFormed()` says the node graph is a finite, acyclic, unshared tree.
  - `Valid()` adds the search-tree ordering and `size ==` the node count.
  - Every method is proved against the `BinaryTree` functions applied to
    `Abs()`, the abstract tree of the root.

Keys are `int`, and `compareTo` is integer comparison. Values have a type
parameter `V`, and `containsValue`'s `equals` is Dafny equality on `V`.

The model follows the code, also where the code departs from what a map
is expected to do:

- `get(null)` throws `NullPointerException`, because `findNode` rejects a
  null key; it does not return null.
- `containsValue` on an empty map throws `NullPointerException`.
- `containsValue` can miss values in right subtrees; see "## Findings".

## Model

| member | source | states |
|---|---|---|
| `BinaryTree.LookupInsert` | javacs-lab09/src/com/flatironschool/javacs/MyTreeMap.java:155-194 | after put(k, v) the descent for k finds v, and every other key finds what it found before |
| `BinaryTree.KeysInsert` | javacs-lab09/src/com/flatironschool/javacs/MyTreeMap.java:155-194 | put(k, v) adds exactly k to the stored keys |
| `BinaryTree.InsertOrdered` | javacs-lab09/src/com/flatironschool/javacs/MyTreeMap.java:167-194 | put keeps the binary-search-tree invariant |
| `BinaryTree.InsertContents` | javacs-lab09/src/com/flatironschool/javacs/MyTreeMap.java:155-194 | on a search tree, put(k, v) turns the represented map m into m[k := v] |
| `BinaryTree.SizeInsert` | javacs-lab09/src/com/flatironschool/javacs/MyTreeMap.java:171-193 | put adds one node when the descent does not find the key and none when it does |
| `BinaryTree.InsertFoundKeepsShape` | javacs-lab09/src/com/flatironschool/javacs/MyTreeMap.java:191-193 | put of a key that is found keeps the tree's shape and keys (its value changes and nothing else, by LookupInsert) |
| `BinaryTree.InsertMissingAddsLeaf` | javacs-lab09/src/com/flatironschool/javacs/MyTreeMap.java:173-189 | put of a missing key keeps every node in place with its key and value and adds exactly one node, a leaf |
| `BinaryTree.LookupFindsKeys` | javacs-lab09/src/com/flatironschool/javacs/MyTreeMap.java:64-84 | on a search tree the descent finds a key if and only if the key is stored |
| `BinaryTree.LookupContents` | javacs-lab09/src/com/flatironschool/javacs/MyTreeMap.java:64-84 | on a search tree the descent returns the represented map's value for the key, or null when the key is absent |
| `BinaryTree.SizeIsKeyCount` | javacs-lab09/src/com/flatironschool/javacs/MyTreeMap.java:208-211 | on a search tree the node count equals the number of distinct keys |
| `BinaryTree.InOrderKeys` | javacs-lab09/src/com/flatironschool/javacs/MyTreeMap.java:146-153 | the in-order walk lists exactly the stored keys and has one entry per node |
| `BinaryTree.InOrderAscending` | javacs-lab09/src/com/flatironschool/javacs/MyTreeMap.java:140-153 | on a search tree the in-order keys are strictly ascending |
| `BinaryTree.AscendingInOrderIsOrdered` | javacs-lab09/src/com/flatironschool/javacs/MyTreeMap.java:140-153 | conversely, a tree whose in-order keys are strictly ascending is a search tree |
| `BinaryTree.ValuesContents` | javacs-lab09/src/com/flatironschool/javacs/MyTreeMap.java:214-226 | on a search tree the values stored at nodes are exactly the values of the represented map |
| `BinaryTree.SearchValueAsWrittenSound` | javacs-lab09/src/com/flatironschool/javacs/MyTreeMap.java:105-118 | a true answer of the as-written value search means some node holds the value |
| `BinaryTree.ContainsValueMissesRightSubtree` | javacs-lab09/src/com/flatironschool/javacs/MyTreeMap.java:111-116 | after put(2,20), put(1,10), put(3,30) the as-written search answers false for 30, although 30 is stored |
| `BinaryTree.PutEntriesOrdered` | javacs-lab09/src/com/flatironschool/javacs/MyTreeMap.java:197-201 | putAll keeps the search-tree invariant, including when it stops at a null key |
| `BinaryTree.PutEntriesLastWins` | javacs-lab09/src/com/flatironschool/javacs/MyTreeMap.java:197-201 | after a putAll without null keys, each key holds the value of its last entry, and keys without an entry are unchanged |
| `BinaryTree.HeightAtMostSize` | javacs-lab09/src/com/flatironschool/javacs/MyTreeMap.java:280-287 | the height is at most the node count |
| `BinaryTree.RightChainHeight` | javacs-lab09/src/com/flatironschool/javacs/MyTreeMap.java:280-287 | a tree whose left children are all empty has height equal to its node count |
| `BinaryTree.InsertAboveAllKeepsChain` | javacs-lab09/src/com/flatironschool/javacs/MyTreeMap.java:182-189 | a key above every stored key is added at the bottom of the right spine |
| `BinaryTree.AscendingPutsChain` | javacs-lab09/src/com/flatironschool/javacs/MyTreeMap.java:182-189 | ascending puts, all above the existing keys, extend a right chain by one node each |
| `BinaryTree.AscendingPutsDegenerate` | javacs-lab09/src/com/flatironschool/javacs/MyTreeMap.java:155-194 | putting n strictly increasing keys into an empty map gives height n, because nothing is rebalanced |
| `TreeMap.Equals` | javacs-lab09/src/com/flatironschool/javacs/MyTreeMap.java:93-98 | null-safe comparison: true exactly when both are null or both hold equal objects |
| `TreeMap.HeightHelper` | javacs-lab09/src/com/flatironschool/javacs/MyTreeMap.java:280-287 | the recursive walk over the nodes returns the height of the subtree's abstract tree |
| `TreeMap.ContainsValueHelp` | javacs-lab09/src/com/flatironschool/javacs/MyTreeMap.java:105-118 | the node walk returns the as-written search's answer, and true only when some node of the subtree holds the value |
| `TreeMap.ContainsValueFull` | javacs-lab09/src/com/flatironschool/javacs/MyTreeMap.java:105-118 | corrected walk: true if and only if some node of the subtree holds the value; false for an empty subtree |
| `TreeMap.Node.constructor` | javacs-lab09/src/com/flatironschool/javacs/MyTreeMap.java:42-45 | a new node has the given key and value and no children |
| `TreeMap.MyTreeMap.constructor` | javacs-lab09/src/com/flatironschool/javacs/MyTreeMap.java:23-24 | a new map has no root, size 0, and satisfies the invariant |
| `TreeMap.MyTreeMap.Clear` | javacs-lab09/src/com/flatironschool/javacs/MyTreeMap.java:49-52 | clear leaves an empty, valid map with size 0 |
| `TreeMap.MyTreeMap.FindNode` | javacs-lab09/src/com/flatironschool/javacs/MyTreeMap.java:64-84 | a null key throws. Otherwise it returns the node whose key equals the target, or null exactly when the descent finds none, within at most height-many steps |
| `TreeMap.MyTreeMap.ContainsKey` | javacs-lab09/src/com/flatironschool/javacs/MyTreeMap.java:55-57 | a null key throws. Otherwise true exactly when the descent finds the key; on a valid map, exactly when the key is stored |
| `TreeMap.MyTreeMap.Get` | javacs-lab09/src/com/flatironschool/javacs/MyTreeMap.java:126-132 | a null key throws. Otherwise it returns the value at the key's node, or null; on a valid map, the represented map's value for the key |
| `TreeMap.MyTreeMap.ContainsValue` | javacs-lab09/src/com/flatironschool/javacs/MyTreeMap.java:101-103 | throws when the target is null or the map is empty. Otherwise it returns the as-written search's answer; true only when the value is stored |
| `TreeMap.MyTreeMap.ContainsValueCorrected` | javacs-lab09/src/com/flatironschool/javacs/MyTreeMap.java:101-118 | corrected containsValue: a null target throws; otherwise true if and only if the value is stored (false on an empty map) |
| `TreeMap.MyTreeMap.EntrySet` | javacs-lab09/src/com/flatironschool/javacs/MyTreeMap.java:121-123 | always throws UnsupportedOperationException |
| `TreeMap.MyTreeMap.Remove` | javacs-lab09/src/com/flatironschool/javacs/MyTreeMap.java:204-206 | always throws UnsupportedOperationException |
| `TreeMap.MyTreeMap.IsEmpty` | javacs-lab09/src/com/flatironschool/javacs/MyTreeMap.java:135-137 | true exactly when size is 0; on a valid map, exactly when the tree is empty |
| `TreeMap.MyTreeMap.Size` | javacs-lab09/src/com/flatironschool/javacs/MyTreeMap.java:208-211 | returns the counter; on a valid map this is the node count and the number of stored keys |
| `TreeMap.MyTreeMap.KeySet` | javacs-lab09/src/com/flatironschool/javacs/MyTreeMap.java:140-144 | returns exactly the stored keys. On a search tree they come in in-order and strictly ascending, and on a valid map there are size of them |
| `TreeMap.MyTreeMap.KeySetHelp` | javacs-lab09/src/com/flatironschool/javacs/MyTreeMap.java:146-153 | adds the subtree's in-order keys, one after the other, to the insertion-ordered set it is given |
| `TreeMap.MyTreeMap.Values` | javacs-lab09/src/com/flatironschool/javacs/MyTreeMap.java:214-226 | the stack walk returns exactly the set of values at reachable nodes (empty for an empty map), and pops exactly 2n + 1 stack entries for a tree of n nodes: each node once and each null slot once |
| `TreeMap.MyTreeMap.Height` | javacs-lab09/src/com/flatironschool/javacs/MyTreeMap.java:276-278 | returns the tree's height, which is at most its node count |
| `TreeMap.MyTreeMap.PutHelper` | javacs-lab09/src/com/flatironschool/javacs/MyTreeMap.java:167-194 | the subtree becomes Insert of its old value, only fresh nodes are added, the previous value is returned, and size grows by one exactly when a node was added |
| `TreeMap.MyTreeMap.Put` | javacs-lab09/src/com/flatironschool/javacs/MyTreeMap.java:155-165 | null key: throws and changes nothing. Empty map: the key becomes the root. In every other case the tree becomes Insert(old tree, k, v), the previous value is returned, an overwrite keeps the shape, a new key adds one leaf, and the invariant is kept |
| `TreeMap.MyTreeMap.PutAll` | javacs-lab09/src/com/flatironschool/javacs/MyTreeMap.java:197-201 | the tree becomes the puts of the entries in order; a null key throws, and the entries before it stay applied; size grows by exactly the number of nodes added, even when it did not match the node count before; the invariant is kept |
| `TreeMap.MyTreeMap.MakeNode` | javacs-lab09/src/com/flatironschool/javacs/MyTreeMap.java:252-254 | returns a fresh detached node holding the key and value |
| `TreeMap.MyTreeMap.SetTree` | javacs-lab09/src/com/flatironschool/javacs/MyTreeMap.java:264-267 | installs the given root and size as given; only the structural invariant holds afterwards, not the ordering or the count |

## Left out

- `main`: a console demo that only prints.
- Generic keys: keys are `int`. `compareTo` is integer order, and the
  unchecked `Comparable` cast and its `ClassCastException` are not modelled.
- Null values: stored values are non-null `V`. Java can store `null` as a
  value, and then `get` cannot tell that value from a missing key. A client
  can get the same effect by instantiating `V` with an `Option` type.
- 32-bit overflow of `size` (past 2^31 - 1 entries) is not modelled:
  `size` is an unbounded `int`.
- SetTree: requires the given node graph to be a finite, unshared tree that
  does not contain the map. Java accepts any node, including a cyclic or
  shared graph, which the model cannot represent.
- Every operation that reads or changes the tree requires `WellFormed()`,
  the heap-shape invariant that a map built through its own operations
  always satisfies.
- KeySetHelp: the `Set` accumulator is passed in and returned, instead of
  being mutated through a shared reference. Aliasing of that set is not
  modelled. `LinkedHashSet.add` is modelled as "append unless present".
- Values: the result is a Dafny `set`; `HashSet` iteration order is not
  modelled. The `Deque` stack is a `seq` whose head is the top.
- PutAll: the other map is given as the sequence of its entries, in its
  iteration order. The other map's own behaviour is not modelled.
- `equals` on values is Dafny equality; a user-defined `equals` that is not
  an equivalence is not modelled.
- Stack depth of the recursive helpers on degenerate trees is not modelled:
  the recursion is modelled without a limit.

## Findings

| source | as written | input that shows it | evidently intended | confidence | as-written member | corrected member |
|---|---|---|---|---|---|---|
| javacs-lab09/src/com/flatironschool/javacs/MyTreeMap.java:111-116 | the right child is searched only when there is no left child | put(2, 20), put(1, 10), put(3, 30); containsValue(30) returns false | search both children; true when any node holds the value | not executed | `BinaryTree.ContainsValueMissesRightSubtree` | `TreeMap.ContainsValueFull` |
| javacs-lab09/src/com/flatironschool/javacs/MyTreeMap.java:101-108 | `root.value` is read through a null root on an empty map | containsValue(1) on a new map throws NullPointerException | return false on an empty map | not executed | `TreeMap.MyTreeMap.ContainsValue` | `TreeMap.MyTreeMap.ContainsValueCorrected` |
