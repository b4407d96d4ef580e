# Treemap: a verified model of an unbalanced BST map

This project models `Treemap<K, V>` from `treemap.h`. It is an ordered map
from keys to values, stored as an unbalanced binary search tree. Nodes own
their children and have no parent links. The map also keeps a `size_t`
counter of its entries. Keys are `int`, as in the command-line tool and in
the unit tests.

- `results.dfy` (`Results`): the five exceptions the map throws, as the
  `Error` datatype, plus the `Result`, `Outcome` and `Option` wrappers that
  carry them.
- `trees.dfy` (`Trees`): the node structure as the `Tree` datatype, and the
  ghost functions that give it meaning:
  - `Keys`, `Values` and `Count`;
  - strict BST order, `IsBST`, and the weaker `Ordered` (left keys smaller,
    right keys not smaller), which strict order implies;
  - `Lookup`, the value that the descent from the root reaches for a key.

  The module also holds the map's recursive private helpers as functions on
  tree values: `MinNode`, `PreOrderRecur`, `InsertAt` and `RemoveAt`. Next to
  them is the corrected removal, `RemoveIntended`, and the lemmas about all
  of these.
- `treemap.dfy` (`Treemaps`): the class `Treemap`. Its `root` and `size`
  fields are reassigned by `Insert` and `Remove`. `Get`, `FloorKey`,
  `CeilKey`, `ContainsKey` and `MaxKey` are `while` loops that move a cursor
  down the tree. Each loop is proved against the set-level meaning of the
  query.
- `scenarios.dfy` (`Scenarios`): the fixtures of `test_treemap.cc`, written
  as client methods. Their postconditions follow from the class contracts
  alone. The module also traces the removal defect described under
  Findings.

`WellFormed()` holds for a map built by `Insert` alone, as long as the
counter does not wrap. It requires strict BST order, the order `Insert`
builds. Under strict order each key is held once, as the comment on
`Insert` says (treemap.h:23). It also requires a counter equal to the number
of key-value mappings (treemap.h:16). `Insert` preserves it unless the
counter wraps. `Remove` preserves it only when the removed node has at most
one child.

What every reachable map keeps is `Ordered`. The constructor establishes it,
and `Insert`, `Remove` and `RemoveWithSuccessor` all preserve it. The query
methods state their set-level guarantees under `Ordered`, so they say what
the code returns on every reachable tree, including after the removal defect
described under Findings. On an ordered tree:

- the descent finds exactly the held keys;
- `MinKey`, `MaxKey`, `FloorKey` and `CeilKey` return the least, greatest,
  floor and ceiling key.

The counter is `size_t`, modelled for a 64-bit target: both `++` and `--`
wrap modulo 2^64. The decrement wrap can actually happen (see Findings).
Once it has happened, `MinKey`, `MaxKey`, `FloorKey` and `CeilKey` can
dereference a null root, which is undefined behaviour in C++. These four
members therefore require `size == 0 || root.Node?`. This holds whenever
the map is well formed.

In three places the code departs from the header's own comments. In each
case the model follows the code:

- The comment on `Remove` (treemap.h:25-26) says it throws when the key does
  not exist. On an empty tree it returns silently instead (treemap.h:113).
  On a non-empty tree an absent key throws "Invalid Key" (treemap.h:115).
- The comment on `Remove` (treemap.h:25) says the key is removed from the
  map. In the two-children case the in-order successor's node is not
  unlinked (treemap.h:123-127), so the tree keeps one node more than the
  counter says.
- `Size()` and `Empty()` (treemap.h:16, 18) are documented in terms of the
  mappings in the map, but they read the counter. `Get`, `MinKey`, `MaxKey`,
  `FloorKey` and `CeilKey` also test the counter, not the root. After the
  defect above, the counter and the tree can disagree.

## Model

| member | source | states |
|---|---|---|
| `Treemaps.Treemap.constructor` | treemap.h:61-62 | a new map has no root, a zero counter, and is well formed and ordered |
| `Treemaps.Treemap.Size` | treemap.h:73-76 | on a well-formed map the counter is the number of distinct keys held |
| `Treemaps.Treemap.Empty` | treemap.h:78-84 | true exactly when the counter is zero; on a well-formed map, exactly when no key is held |
| `Treemaps.Treemap.Insert` | treemap.h:86-104 | if the descent meets the key: "Duplicate Key", with tree and counter unchanged. Otherwise: the new tree is `InsertAt`'s result and the counter goes up by one (wrapping). On an ordered tree it fails exactly when the key is held. Exactly the new key is added and every other lookup is unchanged. Strict BST order and `Ordered` are each kept. A well-formed map stays well formed unless the counter wraps |
| `Trees.InsertAt` | treemap.h:91-104 | fails with `DuplicateKey` exactly when the descent finds the key. Otherwise: keys gain exactly `k`, one more node, values gain `v`, `k` now finds `v` and every other lookup is unchanged. Strict BST order and `Ordered` are each kept |
| `Treemaps.Treemap.Remove` | treemap.h:106-134 | empty root: returns, nothing changed. Descent misses: "Invalid Key", nothing changed; on an ordered tree that is exactly when the key is not held. Otherwise: the tree becomes `RemoveAt`'s result and the counter drops by one (wrapping). On any tree no key but `k` is lost and none is added. On an ordered tree the result is ordered and every lookup other than `k`'s is unchanged. On a BST, exactly `k` leaves the key set and `k` no longer finds anything. With at most one child a well-formed map stays well formed. With two children, BST order is lost and the counter is one below the node count |
| `Trees.RemoveAt` | treemap.h:111-134 | a descent that misses leaves the tree unchanged. The node count drops by one exactly when the matched node has at most one child |
| `Trees.RemoveAtKeysBound` | treemap.h:111-134 | on any tree, removal of `k` loses no key other than `k` and adds none |
| `Trees.RemoveAtKeepsOrdered` | treemap.h:111-134 | removal keeps an ordered tree ordered, in the two-children case too, since the copied-up successor is the least key of the right subtree |
| `Trees.RemoveAtKeys` | treemap.h:111-134 | on a BST, removal leaves exactly the other keys |
| `Trees.RemoveAtLookup` | treemap.h:111-134 | on an ordered tree, every key other than `k` finds the same value after removal. On a BST, `k` then finds nothing, so removal is deletion from the lookup association. Both hold in the splice case and in the two-children case |
| `Trees.RemoveAtSpliceKeepsOrder` | treemap.h:128-132 | on a BST, splicing out a matched node with at most one child keeps strict BST order |
| `Trees.RemoveAtLeavesSuccessor` | treemap.h:122-127 | on a BST, when the matched node has two children the node count does not change, one key fewer is held than there are nodes, and strict BST order is lost |
| `Trees.RemoveIntended` | treemap.h:122-127 | the corrected two-children removal also unlinks the successor. It adds no key, and keeps an ordered tree ordered. On a BST the result is a BST holding exactly the other keys, with one node fewer when `k` was present |
| `Trees.RemoveIntendedLookup` | treemap.h:122-127 | on an ordered tree, every key other than `k` finds the same value after corrected removal. On a BST, `k` then finds nothing |
| `Treemaps.Treemap.RemoveWithSuccessor` | treemap.h:106-134 | the same error outcomes as `Remove`: silent on an empty root, "Invalid Key" when the descent misses, which on an ordered tree is exactly when the key is not held. It adds no key. On an ordered tree the result is ordered and every lookup other than `k`'s is unchanged. On a BST exactly `k` leaves the key set and its lookup, and a well-formed map always stays well formed |
| `Treemaps.Treemap.Get` | treemap.h:136-155 | zero counter: "Empty tree". Descent misses: "Invalid Key". Otherwise: the value the descent reaches. With a nonzero counter on an ordered tree, or on a well-formed map, it succeeds exactly for held keys |
| `Treemaps.Treemap.FloorKey` | treemap.h:157-184 | "Empty tree" exactly when the counter is zero. `k` below the leftmost key: "No Floor". Any result is a held key not above `k`. On an ordered tree it is the greatest such key, and a result exists exactly when some key is at most `k` |
| `Treemaps.Treemap.CeilKey` | treemap.h:186-216 | "Empty tree" exactly when the counter is zero. `k` above the rightmost key: "No Ceil". Any result is a held key not below `k`. On an ordered tree it is the least such key, and a result exists exactly when some key is at least `k` |
| `Treemaps.Treemap.ContainsKey` | treemap.h:218-230 | true exactly when the descent finds the key; on an ordered tree, exactly when the key is held |
| `Trees.LookupFindsKey` | treemap.h:218-230 | on any tree, what the descent finds is a held key and a held value |
| `Trees.LookupIsMembership` | treemap.h:218-230 | on an ordered tree, the descent finds `x` exactly when `x` is a key |
| `Treemaps.Treemap.ContainsValue` | treemap.h:232-235 | true exactly when some node holds the value; on a BST, exactly when some key looks up to it |
| `Trees.PreOrderRecur` | treemap.h:237-252 | the pre-order search answers true exactly when the value is held by some node |
| `Trees.ValuesAreLookups` | treemap.h:237-252 | on a BST, every value held by a node is reached by looking up some key |
| `Treemaps.Treemap.MaxKey` | treemap.h:254-265 | zero counter: "Empty tree". Otherwise the key at the end of the right spine, which is held and, on an ordered tree, is the greatest key |
| `Treemaps.Treemap.MinKey` | treemap.h:267-273 | zero counter: "Empty tree". Otherwise a held key that, on an ordered tree, is the least key |
| `Trees.MinNode` | treemap.h:275-282 | the leftmost node has no left child and holds a key of the tree. On an ordered tree it holds the least key and is what that key looks up to |
| `Trees.CountIsKeyCount` | treemap.h:15-17 | on a BST no key is held twice, so the node count equals the number of keys |
| `Scenarios.EmptyMap` | test_treemap.cc:5-12 | a new map is empty, has size 0, and `Get(42)` reports the empty tree |
| `Scenarios.OneKey` | test_treemap.cc:14-25 | after inserting 23 and 42: not empty, size 2, least key 23, greatest 42, and 23 maps to 'A' |
| `Scenarios.RemoveRoot` | test_treemap.cc:27-38 | after removing 23: not empty, size 1, greatest key 42, and 42 maps to 'B' |
| `Scenarios.Contains` | test_treemap.cc:40-48 | key 23 is held and 56 is not; value 'B' is held and the character with code 23 is not |
| `Scenarios.FloorCeil` | test_treemap.cc:50-65 | over the nine fixture keys: floor of 25 is 18, ceiling of 25 is 42, ceiling of 100 is "No Ceil", floor of 1 is "No Floor" |
| `Scenarios.Exceptions` | test_treemap.cc:68-80 | `Get` on an empty map, a duplicate `Insert`, `Remove` of an absent key and `Get` of an absent key each raise their error |
| `Scenarios.QueriesAfterDefect` | treemap.h:157-184 | after inserting 2, 1, 3 and removing 2: the floor of 5 is 3, key 3 is found and key 2 is not |
| `Scenarios.SuccessorLeftBehind` | treemap.h:122-127 | insert 2, 1, 3, then remove 2: size 2 over 3 nodes. Each later removal of 3 leaves the tree unchanged, so `Empty()` holds over 3 nodes and the counter then wraps to 2^64 - 1 (64-bit `size_t`) |

## Left out

- Generic keys: keys are `int`, not an arbitrary type with `operator<`.
- Values use only their equality, for `ContainsValue`.
- `Print` (treemap.h:68) is declared but never defined.
- C++ memory handling is not modelled:
  - `unique_ptr` ownership and the `std::move` splice become reassignment of a tree value;
  - the leaked `new K` in `FloorKey` and `CeilKey` becomes an `Option` candidate, which is always set when the loop ends;
  - `FloorKey`/`CeilKey` return the argument by reference; here they return its value.
- The unreachable `return n->value` after the loop in `Get` (treemap.h:154) is an `assert false`.
- The `if (!n)` checks in `FloorKey` and `CeilKey` (treemap.h:170, 202) cannot be reached: the counter was already found nonzero and the root is present. They are not modelled.
- `Remove` calls `ContainsKey` again at every level of its recursion. The tree does not change during the descent, so every call gives the same answer. The model checks once.
- `FloorKey` and `CeilKey` call `MinKey()`/`MaxKey()` twice; the model calls them once, since both calls give the same result.
- `Treemaps.Treemap.MinKey`, `MaxKey`, `FloorKey`, `CeilKey`: require `size == 0 || root.Node?`. When the counter is nonzero over an empty root, the source dereferences a null pointer.
- The command-line tool `anitaborg_donations.cc` is not part of this model. It handles argument checks, file reading, number parsing, printing and exit codes. Its only map logic is calls to `Insert`, `Empty`, `Remove`, `CeilKey`, `FloorKey`, `MinKey`, `MaxKey`, `ContainsKey` and `Get`, which are modelled here. Its `Remove` calls always remove `MinKey()`, a node with no left child, so they only take the splice path.
- Complexity bounds (O(log N) on average) and the recursion depth of very deep trees are not modelled.

## Findings

| source | as written | input that shows it | evidently intended | confidence | as-written member | corrected member |
|---|---|---|---|---|---|---|
| treemap.h:123-127 | A matched node with two children gets the key and value of its right subtree's minimum. That minimum node is never unlinked, but `size` is still decremented. | Insert 2, 1, 3, then `Remove(2)`: key 3 is held twice and `size` is 2 over 3 nodes. Three more `Remove(3)` calls leave the tree unchanged and move `size` to 1, then 0 (`Empty()` is true over 3 nodes), then 2^64 - 1 on a 64-bit target | After copying the successor up, remove it from the right subtree, so that strict BST order holds and `size` equals the node count | not executed; high | `Trees.RemoveAtLeavesSuccessor` | `Trees.RemoveIntended` |
