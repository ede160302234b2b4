# SimpleKVS ordered map and collection layer, modelled in Dafny

SimpleKVS is a small key-value store. Each collection keeps its data in B+ trees (`OrderedMap`).
In such a tree, leaves hold key-ordered entries and are chained left to right. Branches hold one
summary key per child: the least key stored in that child. Deleting a key does not remove it; it
marks the entry with a tombstone. This project models:

- the tree: `child_position`, `min_key`, the insert-or-split step `set_value`, insertion `set`
  (summary keys lowered on the way down, splits promoted on the way up, a new root when the
  root splits), lookup `at`, tombstone deletion `del`, and the leaf-chain iterator;
- the `Collection` layer (`set`, `get`, `del`) above the tree.

The central results:

- the tree implements an abstract map from keys to (value, tombstone) records (`Tombstones`);
- every operation keeps the tree invariant (`OrderedMaps.Valid`);
- traversal from `begin()` reads every entry once, in ascending key order.

Modules, in dependency order:

| file | module | contents |
|---|---|---|
| `tombstones.dfy` | `Tombstones` | the abstract tombstoned map: `Put`, `Get`, `Delete` |
| `sorted_entries.dfy` | `SortedEntries` | key-ordered entry sequences, the reference insertion `Upsert`, the map `View` |
| `nodes.dfy` | `Nodes` | nodes, the leaf chain, `child_position`, `min_key`, `set_value` |
| `ordered_map.dfy` | `OrderedMaps` | the tree, `set`, `at`, `del`, and their correctness |
| `histories.dfy` | `Histories` | the effect of a sequence of `set` calls |
| `iteration.dfy` | `Iteration` | the iterator, `begin`, `end`, `++`, `==`, `!=`, and the range-`for` traversal |
| `collection.dfy` | `Collections` | the `Collection` layer |
| `findings.dfy` | `Findings` | three defects, each modelled as written |

Modelling choices:

- Keys of the tree are `int`; values are a type parameter. The source is generic over a totally
  ordered key type, and the proofs use nothing beyond a total order.
- The collection layer works on string keys and values over the abstract map, because the tree is
  proved to implement that map.
- A leaf is a sequence of entries. A branch is a sequence of (summary key, child) pairs. The
  source keeps keys and slots in two parallel arrays; pairing them makes the lengths agree.
- The leaf chain (`mNext`) is the left-to-right sequence of leaves (`Nodes.Leaves`). `set_value`
  links each new leaf right after the one it split from, so that sequence is exactly what the
  `mNext` pointers trace. An iterator is a position in that sequence.
- `set` keeps an explicit stack of the nodes it passed through. The model uses recursion with
  the same effect: descend, call `set_value` at the leaf, then call `set_value` in each parent
  while a split propagates.
- `ceil(mSize / 2.0)` is computed exactly as `(mSize + 1) / 2`.
- Array indices are mathematical integers. The one place where `size_t` wrap-around changes the
  outcome is modelled separately (see Findings).
- The tree requires a branching factor of at least 2. The default is 3.
- Node capacity is modelled as written:
  - a leaf splits when it holds `bf - 1` entries and another one arrives;
  - a branch splits when it holds `bf` children.

Where the header and its callers disagree, the model follows the callers:

- The header declares `set(key, value)`, a one-argument `at(key)` and no `del`. The unit tests
  and `Collection` instead call `set(key, value, deleted)`, `at(key, &isDeleted)` and
  `del(key)`, and the node carries an `mIsDeleted` array.
- The model gives those calls the meaning the tests check:
  - `set` stores the value and the flag, replacing both on overwrite;
  - `at` reports the stored record, tombstone included, and fails only for a key never stored;
  - `del` tombstones a stored key and returns true, or returns false and changes nothing.
- The iterator's `isDeleted` is always `false` in the header. The model yields the entry's own
  flag, which is what the tests expect (see Findings).
- `Collections.GetAfterSet`, `Collections.GetAfterDel` and `Collections.ReviveAfterDel` follow
  directly from the contracts of `Set`, `Get` and `Del`; they state those contracts as
  read-after-write properties.
- Older write buffers are carried unchanged; only the newest is written, and it is read only by
  `del`, which branches on its `del` result.
- `Collection` builds its cache as `OrderedMap(100)`. The 100 is a branching factor, not a bound
  on the number of cached keys. The cache is therefore modelled as an unbounded map.

## Model

| member | source | states |
|---|---|---|
| SortedEntries.IncreasingPairs | SimpleKVS/OrderedMap.h:252-268 | (auxiliary) keys increasing from each to the next is the same as every key lying below every later one, the order the leaf binary search of `at` relies on |
| SortedEntries.InsertPoint | SimpleKVS/OrderedMap.h:292-293 | the insertion point of `set_value` is the first index whose key is not below the new key |
| SortedEntries.UpsertSorted | SimpleKVS/OrderedMap.h:288-376 | inserting into a strictly sorted entry sequence keeps it strictly sorted |
| SortedEntries.UpsertView | SimpleKVS/OrderedMap.h:294-298 | after an insert the map view changes at the new key only, which now holds the new record |
| SortedEntries.UpsertAt | SimpleKVS/OrderedMap.h:292-298 | an insert overwrites the slot at the insertion point when its key is equal, and otherwise puts the entry in front of that slot |
| SortedEntries.TombstonedView | UnitTest/OrderedMap.cpp:158-163 | tombstoning the entry for a key in a sorted sequence is `Delete` on its map view, and a key is reported present exactly when some entry holds it |
| Nodes.Search | SimpleKVS/OrderedMap.h:102-114 | the binary search of `child_position` returns an index in `[left, right]` whose key is not above the query and whose successor's key, if any, is above it |
| Nodes.ChildPosition | SimpleKVS/OrderedMap.h:99-115 | the result is 0 exactly when the node has at most one key or the query is below `keys[1]`; otherwise it lies in range, its key is not above the query, and the next key, if any, is above it |
| Nodes.ChildPositionGreatest | SimpleKVS/OrderedMap.h:99-115 | on keys increasing from index 1, the result is the greatest index whose key is not above the query, or 0 when no such index exists |
| Nodes.ChildPositionIs | SimpleKVS/OrderedMap.h:99-115 | any index with those two properties is the result |
| Nodes.ChildPositionExample | UnitTest/OrderedMap.cpp:130-138 | routing on keys 10..60 sends 0, 9 and 10 to child 0, 20 to 1, 39 to 2, 59 to 4, and 60 and 100 to 5 |
| Nodes.MinKeyFirst | SimpleKVS/OrderedMap.h:117-122 | `min_key` is the first key of a subtree's contents, and no key in a sorted subtree is smaller |
| Nodes.BalancedHasMin | SimpleKVS/OrderedMap.h:117-122 | `min_key` of a balanced subtree always reaches a non-empty leaf |
| Nodes.BalancedNonEmpty | SimpleKVS/OrderedMap.h:229-235 | (auxiliary) a balanced subtree stores at least one entry, so `begin()` of a non-empty root finds a first slot |
| Nodes.SplitInsert | SimpleKVS/OrderedMap.h:302-351 | the two halves of a split, read left to right, are the old slots with the new slot inserted, and the left half keeps `ceil(size / 2)` slots |
| Nodes.SetValue | SimpleKVS/OrderedMap.h:288-376 | `set_value` keeps the node kind, and a new sibling is of the same kind |
| Nodes.SetValueOverwrite | SimpleKVS/OrderedMap.h:294-298 | a leaf already holding the key changes only that slot's record: same keys, no sibling |
| Nodes.SetValueInsert | SimpleKVS/OrderedMap.h:361-373 | without overflow, the slot goes in at the insertion point, later slots shift right, the size grows by one, and no sibling appears |
| Nodes.SetValueSplit | SimpleKVS/OrderedMap.h:300-360 | on overflow, the left node keeps `ceil(size / 2)` slots and the right node the rest; both are non-empty and within capacity, and together they are the old slots with the new one inserted |
| Nodes.SetValueLeafUpsert | SimpleKVS/OrderedMap.h:288-376 | on a leaf, the entries of the node and its new sibling are exactly `Upsert` of the old entries |
| Nodes.SetValueBranchKids | SimpleKVS/OrderedMap.h:300-351 | on a branch, a sibling appears exactly when the node held `bf` children, and the children left behind are the old ones with the new child inserted |
| Nodes.SetValueBalanced | SimpleKVS/OrderedMap.h:300-373 | `set_value` keeps a balanced node balanced, and a split produces a balanced sibling at the same depth |
| OrderedMaps.Empty | SimpleKVS/OrderedMap.h:202-206 | a new tree is one empty leaf of height 1; it is valid and empty, and `at` finds nothing in it |
| OrderedMaps.Ins | SimpleKVS/OrderedMap.h:393-414 | one level of `set` keeps every leaf at the same depth and every node within capacity, including a new sibling |
| OrderedMaps.Lift | SimpleKVS/OrderedMap.h:397-413 | storing the child under its lowered summary key and promoting its sibling keeps the branch balanced |
| OrderedMaps.Promote | SimpleKVS/OrderedMap.h:408-414 | inserting a split child's sibling into the parent under its `min_key` keeps the parent balanced |
| OrderedMaps.Set | SimpleKVS/OrderedMap.h:381-433 | `set` keeps the tree shape and branching factor, and the height grows by at most one |
| OrderedMaps.Grow | SimpleKVS/OrderedMap.h:416-430 | the height grows by one exactly when the root split |
| OrderedMaps.SetCorrect | SimpleKVS/OrderedMap.h:381-433 | `set` keeps the tree valid, its contents become `Upsert` of the old contents, and the abstract map changes by `Put` |
| OrderedMaps.SetContents | SimpleKVS/OrderedMap.h:393-430 | after `set` every summary key is still the minimum of its child |
| OrderedMaps.InsCorrect | SimpleKVS/OrderedMap.h:393-414 | the recursive step stores `Upsert` of the subtree's contents across the node and its sibling, with every summary key a minimum |
| OrderedMaps.LiftCorrect | SimpleKVS/OrderedMap.h:397-413 | after the recursive call the branch holds the contents before the child, then the child's new contents, then the contents after it |
| OrderedMaps.PromoteCorrect | SimpleKVS/OrderedMap.h:408-414 | a promoted sibling lands right after the child it split from, so the contents stay in order |
| OrderedMaps.PromotePoint | SimpleKVS/OrderedMap.h:411-413 | the insertion point of the sibling's `min_key` in the parent is the slot right after the split child |
| OrderedMaps.RouteUpsert | SimpleKVS/OrderedMap.h:395-398 | inserting into a valid branch only changes the contents of the child `child_position` picks |
| OrderedMaps.NewRoot | SimpleKVS/OrderedMap.h:416-430 | a new root over the old root and its sibling, keyed by their minima, is balanced one level higher, and its contents are theirs in order |
| OrderedMaps.GrowCorrect | SimpleKVS/OrderedMap.h:416-430 | growing the root keeps the contents and every summary key a minimum |
| OrderedMaps.RootSplit | SimpleKVS/OrderedMap.h:416-430 | when `set` grows the tree, the new root has exactly two balanced children, each keyed by its first key, whose contents together are `Upsert` of the old contents |
| OrderedMaps.GrowSplit | SimpleKVS/OrderedMap.h:417-423 | the new root's children are the old root then its sibling, each keyed by its least key |
| OrderedMaps.LeafSearch | SimpleKVS/OrderedMap.h:252-268 | the leaf binary search of `at` returns only a slot holding the key, and on a sorted leaf reports not-found only when no slot in range holds it |
| OrderedMaps.FindCorrect | SimpleKVS/OrderedMap.h:242-271 | the descent of `at` returns exactly the record the subtree's map view holds for the key |
| OrderedMaps.AtCorrect | SimpleKVS/OrderedMap.h:242-271 | on a valid tree, `at` returns the abstract map's record, tombstoned or not, and fails exactly when the key was never stored |
| OrderedMaps.Kill | UnitTest/OrderedMap.cpp:158-159 | the descent of `del` never changes a node's size |
| OrderedMaps.Del | UnitTest/OrderedMap.cpp:158-159 | `del` keeps height and branching factor, and leaves the tree unchanged when it returns false |
| OrderedMaps.KillLeaf | UnitTest/OrderedMap.cpp:158-163 | at a leaf, `del` tombstones the entry with the key, and reports true exactly when the leaf stores that key |
| OrderedMaps.KillCorrect | UnitTest/OrderedMap.cpp:141-164 | the descent of `del` keeps the subtree balanced and summarized, tombstones exactly the entry with the key, and reports whether that key is stored |
| OrderedMaps.DelCorrect | UnitTest/OrderedMap.cpp:141-164 | `del` keeps the tree valid, returns true exactly when the key is stored, and changes the abstract map by `Delete` |
| Histories.SetAll | UnitTest/OrderedMap.cpp:31-47 | a run of `set` calls keeps the tree shape and branching factor |
| Histories.LastWrite | UnitTest/OrderedMap.cpp:31-47 | the last write to a key is found exactly when the key was written, and no later write touches it |
| Histories.SetAllView | UnitTest/OrderedMap.cpp:31-47 | after a run of `set` calls the tree is valid, and each key holds the record of its last write, or what it held before when it was not written |
| Histories.AtAfterSets | UnitTest/OrderedMap.cpp:31-47 | on a tree built from empty, `at` returns the last value written for each key and fails for a key never written |
| Histories.KeysAfterSets | UnitTest/OrderedMap.cpp:252-266 | the keys of a tree built from empty are exactly the keys written |
| Histories.ReviveAfterDelete | UnitTest/OrderedMap.cpp:155-163 | `set` after `del` makes the key live again with the new value |
| Iteration.Position | SimpleKVS/OrderedMap.h:152-199 | an iterator stands for a position in the leaf chain's entries, and that position lies before the end exactly when the iterator has a leaf |
| Iteration.Deref | SimpleKVS/OrderedMap.h:163-164 | `*it` is the entry at the iterator's position in the chain |
| Iteration.End | SimpleKVS/OrderedMap.h:237-240 | `end()` has no leaf |
| Iteration.Equal | SimpleKVS/OrderedMap.h:186-190 | two end iterators are equal whatever their `keyIndex`; otherwise leaf and index must both agree |
| Iteration.NotEqual | SimpleKVS/OrderedMap.h:191-195 | the separately written `!=` is exactly the negation of `==` |
| Iteration.Next | SimpleKVS/OrderedMap.h:167-184 | `++` moves exactly one entry forward along the leaf chain, reaching the end after the last entry |
| Iteration.LeftmostFirst | SimpleKVS/OrderedMap.h:229-235 | the descent of `begin()` along first children reaches the first leaf of the chain |
| Iteration.KeyIndex | SimpleKVS/OrderedMap.h:152-162 | the constructor's scan finds the last slot holding the key, or 0 when no slot does |
| Iteration.Begin | SimpleKVS/OrderedMap.h:229-235 | `begin()` equals `end()` exactly when the tree is empty, and otherwise points at the first entry of the chain |
| Iteration.WalkRest | SimpleKVS/OrderedMap.h:167-190 | from any iterator, the range-`for` loop reads the remaining entries of the chain in order |
| Iteration.TraversalCorrect | UnitTest/OrderedMap.cpp:252-266 | traversal of a valid tree reads its contents: strictly ascending, with exactly the abstract map's keys and, for each, the record the map holds |
| Iteration.TraversalAfterSets | UnitTest/OrderedMap.cpp:166-195 | traversal of a tree built from empty reads each written key once, in ascending order |
| Collections.NewCollection | SimpleKVS/Database.h:8-11 | a new collection has its name, no write buffer and an empty cache |
| Collections.Set | SimpleKVS/Database.cpp:3-9 | `set` creates a first write buffer when there is none, stores the live pair in the newest buffer and in the cache, and leaves older buffers alone |
| Collections.Get | SimpleKVS/Database.cpp:11-18 | `get` returns the cached value exactly when it is live, "deleted" exactly when the cache holds a tombstone, and "not found" exactly when the cache lacks the key (the corrected `at`; as written, a key below every cached key makes `at` read past a node, see Findings) |
| Collections.Del | SimpleKVS/Database.cpp:20-26 | `del` tombstones the cache entry if there is one; in the newest buffer it tombstones the entry, or stores a tombstone with an empty value when the buffer lacks the key; older buffers stay |
| Collections.GetAfterSet | SimpleKVS/Database.cpp:3-18 | `get` after `set` returns the value just stored, and every other key reads as before |
| Collections.GetAfterDel | SimpleKVS/Database.cpp:11-26 | `get` after `del` reports "deleted" when the cache held the key and "not found" otherwise, and every other key reads as before |
| Collections.ReviveAfterDel | SimpleKVS/Database.cpp:3-26 | `set` after `del` makes `get` return the new value |
| Findings.SizeSearch | SimpleKVS/OrderedMap.h:252-268 | the leaf search of `at` on wrapping `size_t` indices: a hit holds the key, and an overrun is a read past the node |
| Findings.SizeSearchOverruns | SimpleKVS/OrderedMap.h:262 | as written, a query below every key of a sorted leaf always reads past the node |
| Findings.SizeSearchExample | SimpleKVS/OrderedMap.h:252-262 | a leaf holding 10, queried below its key (for 5), reads slot 2^63 - 1; a query above it, such as the 12 of the out-of-bounds unit test, does not wrap and ends in the "not found" exit |
| Findings.LeafSearchExample | SimpleKVS/OrderedMap.h:252-268 | with exact indices, the same query for 5 reports "not found", and so does `at` |
| Findings.Clobber | SimpleKVS/OrderedMap.h:181-182 | the store made by `++` overwrites the key and value of the first slot of the first leaf and changes nothing else |
| Findings.AliasedWalk | SimpleKVS/OrderedMap.h:148-184 | the as-written traversal reads one entry per remaining position and leaves a chain of the same length |
| Findings.AliasingCounterexample | SimpleKVS/OrderedMap.h:181-182 | walking a leaf holding 1 and 2 leaves it holding 2 twice; it is then unsorted, `at(1)` as written reads past the node (the first finding), and the corrected `at` reports not-found |
| Findings.DeletedFlagLost | SimpleKVS/OrderedMap.h:152-155 | after `del(1)` the entry under `begin()` is a tombstone, yet the as-written iterator yields `isDeleted == false` |
| Findings.WalkLeavesTree | UnitTest/OrderedMap.cpp:166-195 | the corrected traversal reads exactly the tree's contents |

## Left out

- Networking, the server, the command-line entry point, the client, and the `Database`
  registry of collections: they are outside the ordered map and the collection layer.
- Move construction, move assignment and `swap` of nodes, trees and collections; destructors and
  all memory management: a value model has no ownership.
- `print`, `DEBUG_MODE` and the debug output in `set`: they have no effect on the stored data.
- `operator[]`: its body is empty in the header.
- The `double` rounding in `ceil((double)mSize / 2.0f)`: it is exact for every node size a
  branching factor can reach, so the model uses `(mSize + 1) / 2`.
- The scale and memory-leak unit tests: they measure the implementation, not its results.
- `key < mKeys[...]` on a generic key type: keys are `int`, and the proofs use only that `<` is a
  total order.
- OrderedMaps.Set: states only shape, branching factor and height; contents and the abstract map
  are in OrderedMaps.SetCorrect, which needs the full invariant, not just the shape.
- OrderedMaps.Del: states only height, branching factor and the false case; contents and the
  abstract map are in OrderedMaps.DelCorrect, which needs a valid tree.
- Collections.Del: requires an existing write buffer, because the source calls `back()` on the
  buffer list, which is undefined when the list is empty; that case is not modelled.
- Findings.SizeSearch: is modelled for leaves with fewer than 2^63 entries. That is far above any
  branching factor, so `left + right` wraps at most once.

## Findings

| source | as written | input that shows it | evidently intended | confidence | as-written member | corrected member |
|---|---|---|---|---|---|---|
| SimpleKVS/OrderedMap.h:262 | `right = mid - 1` on `size_t` wraps to 2^64 - 1 when `mid` is 0, so `left <= right` stays true and `mKeys[mid]` is read far past the node | a tree whose leftmost leaf holds 10, queried with `at(5)`: `mid` becomes 0, then 2^63 - 1; `Collection::get` (SimpleKVS/Database.cpp:13) reaches it for any key below every cached key, so the "not found" of Collections.Get is the corrected behaviour | stop the search and throw "Value not found" when the key lies below every key of the leaf | not executed | Findings.SizeSearchOverruns | OrderedMaps.AtCorrect |
| SimpleKVS/OrderedMap.h:181-182 | `ptr.first` and `ptr.second` are references bound by `begin()` to slot 0 of the first leaf, so each `++` writes the entry it moves to into that slot | a leaf holding keys 1 and 2: one traversal leaves it holding 2 twice, after which `at(1)` as written reads past the node (the first finding) and the corrected `at` reports not-found | rebind the iterator to the new slot and leave the tree unchanged | not executed | Findings.AliasingCounterexample | Findings.WalkLeavesTree |
| SimpleKVS/OrderedMap.h:152-155 | the iterator builds `value_type` with `isDeleted` set to `false` and never updates it | after `set(1, 10)` and `del(1)`, the entry under `begin()` is a tombstone, yet the loop sees `isDeleted == false` | yield the slot's tombstone flag, as the deleted-value iterator test expects | not executed | Findings.DeletedFlagLost | Iteration.TraversalCorrect |
