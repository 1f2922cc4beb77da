# Skip lists and a trie, modelled in Dafny

This project models the lookup structures of AdvancedDataStructures:

- `SkipList<T>`: a sorted collection that allows duplicates. Each node holds a value and a dictionary of forward links keyed by level.
  - `Add`, `Contains`, `Find`, `FindOrDefault` and `Remove` descend from a sentinel head to the first element that is not less than the probe.
  - `AddRange` sorts a collection and merges it into the existing chain in one pass (`BulkAdd`).
  - `CopyTo` and the enumerator walk level 0.
- `ComparableSkipList<T>`: a skip list that refuses an `Add` whose key is already present. Its `Update` overwrites, in place, every element whose key equals the new value's.
- `ShardedSkipList<T, TShard>`: a fixed number of skip lists. A user-supplied shard function picks the shard for each item.
  - Every lookup and update goes to that one shard.
  - `Count` is the sum of the shard counts.
  - `AddRange` groups a collection by shard and bulk-adds each group.
  - `CopyTo` concatenates the shards and sorts the target array.
- `ComparableShardedSkipList<T, TShard>`, in both revisions: the sharded list over uniqueness shards, with `Update` routed to the owning shard.
- The first skip list revision (`AdvancedDataStructures.Lookups/SkipList.cs`). It has the same layout and different operations:
  - `Remove` never lowers `Count`;
  - `Remove` throws `KeyNotFoundException` when the element to remove is the last one;
  - `Find` returns the first element not less than the probe without checking that it is equal.
- `Trie`: a character trie of trimmed words, with `Insert`, `Search`, `QueryWords` (all words below a prefix) and enumeration of every word.

Elements are `Items.Item(id, name)`. They are ordered and compared for equality by `id` alone, as the tests' `MyObject` is. `Sorted` means non-decreasing by key.

## Representation

Each skip list is a class that holds its nodes in an arena.
- `nodes: seq<Node>` is the arena and `head` is the handle of the sentinel.
- A ghost `spine` lists the handles of the level-0 chain in order.
- A node's level-0 entry is a `Link`:
  - `Absent`: no key 0 in the `Forward` dictionary;
  - `Null`: key 0 present with a null value;
  - `To(n)`: a link to node `n`.

`RandomLevel` returns `Math.Min(level, MaxLevel)`, so it never exceeds `MaxLevel`. `MaxLevel` starts at 0 and is raised only to a level above it, which never happens. Every node is therefore linked at level 0 only. The model keeps `MaxLevel == 0` as part of the invariant and proves each operation against the level-0 chain.

The current `Remove` writes `current.Forward.GetValueOrDefault(0)!` into its predecessor (SkipList.cs:260). When the removed node is the last one, that writes a null entry under key 0.
- The model keeps this as the `Null` link and the `Dangling()` state.
- A later walk that reaches that predecessor and reads `.Value` through the entry fails with `NullReferenceException`. Its contract states this as the `Crashes` case.

The trie is an arena too.
- `nodes[0]` is the root.
- A node's children are a list of `(char, handle)` pairs in insertion order, which is the order in which `Dictionary<char, TrieNode>` enumerates when nothing is removed.
- A ghost `spelling` gives the string on each node's path.
- `IsWord(nodes, s)` holds when following `s` from the root ends at a node whose word flag is set.

Exceptions are values: `Outcome` (`Pass` or `Throw(e)`) for void operations and `Result<T>` for the others. A null argument is `None` in an `Option`.

The sharded `CopyTo` sorts the whole target array, including slots it did not write. Those slots may hold null, which `Array.Sort` with the default comparer puts first, so its array is an `array<Option<Item>>` whose `None` cells are nulls.

## Model

| member | source | states |
|---|---|---|
| Items.Ceiling | AdvancedDataStructures.Lookups/SkipLists/SkipList.cs:106-113 | the position where the descent stops: every element before it is less than the probe, and the element at it (if any) is not |
| Items.CeilingDecidesMembership | AdvancedDataStructures.Lookups/SkipLists/SkipList.cs:168-170 | in a sorted chain, the element at the stopping position equals the probe exactly when some element has the probe's key, so looking only at the next node decides membership |
| Items.CeilingUnique | AdvancedDataStructures.Lookups/SkipLists/SkipList.cs:106-113 | any position with "all before are less, the one at it is not" is the stopping position |
| Items.InsertAtCeiling | AdvancedDataStructures.Lookups/SkipLists/SkipList.cs:130-141 | splicing a value in front of the first element not less than it keeps the chain sorted |
| Items.InsertAtCounts | AdvancedDataStructures.Lookups/SkipLists/SkipList.cs:130-141 | that splice adds exactly one copy of the value and nothing else |
| Items.RemoveAtKeepsSorted | AdvancedDataStructures.Lookups/SkipLists/SkipList.cs:256-262 | unlinking one node keeps the chain sorted |
| Items.SortItems | AdvancedDataStructures.Lookups/SkipLists/SkipList.cs:39 | `OrderBy` yields a sorted permutation of the collection |
| Items.SortSortedIsIdentity | AdvancedDataStructures.Lookups/SkipLists/SkipList.cs:48 | under the stable sort that models `OrderBy`, sorting an already sorted list again changes nothing, so the second `OrderBy` in `BulkAdd` keeps the first one's order |
| Items.Merge | AdvancedDataStructures.Lookups/SkipLists/SkipList.cs:57-77 | the one-pass merge keeps every element of both inputs and starts with the first of one of them |
| Items.MergeSortedPermutation | AdvancedDataStructures.Lookups/SkipLists/SkipList.cs:57-77 | merging two sorted chains gives a sorted chain holding exactly the elements of both |
| Items.ReplaceEqual | AdvancedDataStructures.Lookups/SkipLists/ComparableSkipList.cs:42-47 | the effect of `Update`'s overwrite loop: the length and every key stay where they were, each element is either the new value or what it was, and the new value is present afterwards exactly when its key was |
| Items.ReplaceEqualKeepsKeys | AdvancedDataStructures.Lookups/SkipLists/ComparableSkipList.cs:42-47 | overwriting the run of equal elements keeps the length and every key, so the chain stays sorted |
| Items.ReplaceEqualMiss | AdvancedDataStructures.Lookups/SkipLists/ComparableSkipList.cs:39-49 | when no element has the key, `Update` changes nothing |
| Items.ReplaceEqualIdempotent | AdvancedDataStructures.Lookups/SkipLists/ComparableSkipList.cs:21-50 | updating twice with the same value is the same as updating once |
| Items.ReplaceEqualThenFind | AdvancedDataStructures.Lookups/SkipLists/ComparableSkipList.cs:21-50 | after an update that hits, the descent stops at the same position and finds the new value there |
| SkipLists.Successor | AdvancedDataStructures.Lookups/SkipLists/SkipList.cs:168 | `GetValueOrDefault(0)` yields a node exactly when the entry is a link to one |
| SkipLists.RandomLevel | AdvancedDataStructures.Lookups/SkipLists/SkipList.cs:88-96 | the level is at most `MaxLevel` and at most one more than the number of heads thrown, and equals one of the two |
| SkipLists.Values | AdvancedDataStructures.Lookups/SkipLists/SkipList.cs:275-283 | the chain's values have one entry per node of the chain |
| SkipLists.SkipList.Crashes | AdvancedDataStructures.Lookups/SkipLists/SkipList.cs:108 | the condition under which a descent throws `NullReferenceException` (the walks at lines 108, 161, 199 and 243): the list ends in a null entry and every stored element is less than the probe |
| SkipLists.SkipList.FreshIsEmpty | AdvancedDataStructures.Lookups/SkipLists/SkipList.cs:29 | a fresh list (a lone sentinel) satisfies the invariant, is empty and has no null entry |
| SkipLists.SkipList.constructor | AdvancedDataStructures.Lookups/SkipLists/SkipList.cs:29 | the new list is valid and empty |
| SkipLists.SkipList.FromCollection | AdvancedDataStructures.Lookups/SkipLists/SkipList.cs:31-34 | the list holds the collection sorted, and `Count` is its size |
| SkipLists.SkipList.Descend | AdvancedDataStructures.Lookups/SkipLists/SkipList.cs:103-113 | the descent ends on the chain node just before the ceiling position, whose successor is the first element not less than the probe; it fails with `NullReferenceException` exactly when it reaches a null entry |
| SkipLists.SkipList.Add | AdvancedDataStructures.Lookups/SkipLists/SkipList.cs:98-144 | a null value throws `ArgumentNullException`; a walk through a null entry throws `NullReferenceException` with nothing changed; otherwise the value is spliced in at its ceiling (duplicates allowed), `Count` rises by one, the list stays sorted and `MaxLevel` stays 0 |
| SkipLists.SkipList.Clear | AdvancedDataStructures.Lookups/SkipLists/SkipList.cs:146-151 | the list is fresh again: a new sentinel, `MaxLevel` 0, `Count` 0 |
| SkipLists.SkipList.Contains | AdvancedDataStructures.Lookups/SkipLists/SkipList.cs:153-171 | null throws `ArgumentNullException`; otherwise the answer is whether some element has the value's key (or `NullReferenceException` in the null-entry case) |
| SkipLists.SkipList.CopyTo | AdvancedDataStructures.Lookups/SkipLists/SkipList.cs:173-189 | a null array, an index outside it, and too little room each throw their exception and leave the array as it was; otherwise the elements in order overwrite the slots from `arrayIndex` and no other slot changes |
| SkipLists.SkipList.Find | AdvancedDataStructures.Lookups/SkipLists/SkipList.cs:191-215 | it returns an element exactly when one has the key; that element is the first with the key; otherwise it throws `KeyNotFoundException` |
| SkipLists.SkipList.FindOrDefault | AdvancedDataStructures.Lookups/SkipLists/SkipList.cs:217-229 | the first element with the key when there is one, else the default value |
| SkipLists.SkipList.Remove | AdvancedDataStructures.Lookups/SkipLists/SkipList.cs:231-273 | an empty list answers false; a miss answers false with nothing changed; a hit unlinks the first element with the key and lowers `Count`; removing the last element leaves a null entry; a list emptied by `Remove` is fresh again |
| SkipLists.SkipList.Enumerate | AdvancedDataStructures.Lookups/SkipLists/SkipList.cs:275-283 | the enumeration is the chain's contents: sorted, with `Count` elements |
| SkipLists.SkipList.AddRange | AdvancedDataStructures.Lookups/SkipLists/SkipList.cs:36-41 | null throws `ArgumentNullException`; on a list that ends in a null entry the merge throws `NullReferenceException` and nothing changes; otherwise the contents become the old contents merged with the sorted collection, and `Count` rises by the collection's size |
| SkipLists.SkipList.BulkAdd | AdvancedDataStructures.Lookups/SkipLists/SkipList.cs:43-86 | the corrected merge: it walks the whole old chain, so a null entry at its end throws `NullReferenceException` with nothing changed; otherwise the new chain is the old contents merged with the sorted items, and `Count` rises by their number |
| SkipLists.SkipList.Install | AdvancedDataStructures.Lookups/SkipLists/SkipList.cs:79-85 | swapping in the new head and count gives a valid list holding the merged chain |
| SkipLists.LinkAfter | AdvancedDataStructures.Lookups/SkipLists/SkipList.cs:130-141 | linking a new node after the descent's node inserts its value at the ceiling position and keeps the chain well formed |
| SkipLists.Unlink | AdvancedDataStructures.Lookups/SkipLists/SkipList.cs:256-262 | bypassing a node removes exactly its value; the chain now dangles when the removed node was the last |
| SkipLists.MergedWellFormed | AdvancedDataStructures.Lookups/SkipLists/SkipList.cs:57-77 | a linked chain whose values are the merge of two sorted inputs is sorted and holds exactly their elements |
| SkipLists.CopyChain | AdvancedDataStructures.Lookups/SkipLists/SkipList.cs:182-188 | walking the chain writes its values, in order, into consecutive slots |
| SkipLists.MergeChains | AdvancedDataStructures.Lookups/SkipLists/SkipList.cs:50-77 | building the merged chain behind a new head crashes exactly when the old chain ends in a null entry; otherwise it yields a linked chain, with no null entry, whose values are the merge of the old contents and the items |
| BulkAddAsWritten.Step | AdvancedDataStructures.Lookups/SkipLists/SkipList.cs:57-77 | one iteration of the merge exactly as written; it finishes only when the old chain is exhausted and crashes only on a null entry |
| BulkAddAsWritten.Run | AdvancedDataStructures.Lookups/SkipLists/SkipList.cs:57-77 | iterating the step keeps the configuration well formed |
| BulkAddAsWritten.SelfLinkNeverFinishes | AdvancedDataStructures.Lookups/SkipLists/SkipList.cs:72-77 | once the node being written links to itself, the tail loop never ends |
| BulkAddAsWritten.CrashesOnDanglingList | AdvancedDataStructures.Lookups/SkipLists/SkipList.cs:72-77 | on a list whose last node holds a null entry (left by `Add(1); Add(2); Remove(2)`), the merge as written dereferences that entry and crashes |
| BulkAddAsWritten.DivergesOnLargerItem | AdvancedDataStructures.Lookups/SkipLists/SkipList.cs:57-77 | adding item 2 to the list holding item 1 runs forever, although the intended result is the two-element list |
| ComparableSkipLists.InsertAbsentKeepsUnique | AdvancedDataStructures.Lookups/SkipLists/ComparableSkipList.cs:9-19 | inserting a value whose key is absent keeps all keys distinct |
| ComparableSkipLists.RelabelKeepsLinked | AdvancedDataStructures.Lookups/SkipLists/ComparableSkipList.cs:44 | changing node values but not links keeps the chain, including any null entry |
| ComparableSkipLists.OverwriteRun | AdvancedDataStructures.Lookups/SkipLists/ComparableSkipList.cs:39-49 | starting from the ceiling node, overwriting the run of equal elements gives the chain with every element of that key replaced by the new value; `found` is whether the key was present; links are untouched |
| ComparableSkipLists.OverwriteLoop | AdvancedDataStructures.Lookups/SkipLists/ComparableSkipList.cs:42-47 | the loop overwrites exactly the maximal run of equal elements from the start node |
| ComparableSkipLists.Overwrite | AdvancedDataStructures.Lookups/SkipLists/ComparableSkipList.cs:44 | storing the relabelled arena gives a valid list whose contents are the replaced chain, with the same links and `Count` |
| ComparableSkipLists.ComparableSkipList.constructor | AdvancedDataStructures.Lookups/SkipLists/ComparableSkipList.cs:5 | a fresh, empty uniqueness list |
| ComparableSkipLists.ComparableSkipList.FromCollection | AdvancedDataStructures.Lookups/SkipLists/ComparableSkipList.cs:7 | the base bulk constructor: the sorted collection, duplicates included |
| ComparableSkipLists.ComparableSkipList.Add | AdvancedDataStructures.Lookups/SkipLists/ComparableSkipList.cs:9-19 | null throws `ArgumentNullException`; a present key throws `InvalidOperationException` with nothing changed; otherwise the base insertion, which keeps keys unique; whether the chain ends in a null entry is the same afterwards on every path |
| ComparableSkipLists.ComparableSkipList.Update | AdvancedDataStructures.Lookups/SkipLists/ComparableSkipList.cs:21-50 | null throws `ArgumentNullException`; otherwise the answer is whether the key was present, every element with the key now holds the new value, and nothing else (links, `Count`) changes |
| ShardedSkipLists.SumUpdate | AdvancedDataStructures.Lookups/SkipLists/ShardedSkipList.cs:13 | changing one shard's count changes the total by the difference |
| ShardedSkipLists.FlattenLength | AdvancedDataStructures.Lookups/SkipLists/ShardedSkipList.cs:13 | the sum of the shard counts is the number of elements across all shards |
| ShardedSkipLists.FlattenMember | AdvancedDataStructures.Lookups/SkipLists/ShardedSkipList.cs:70 | an item is enumerated exactly when some shard holds it |
| ShardedSkipLists.GroupMember | AdvancedDataStructures.Lookups/SkipLists/ShardedSkipList.cs:53-54 | a group holds exactly the collection's items whose shard is its key |
| ShardedSkipLists.KeysOfItems | AdvancedDataStructures.Lookups/SkipLists/ShardedSkipList.cs:53-55 | the ordered group keys increase strictly and are exactly the shard numbers of the collection's items |
| ShardedSkipLists.GroupSizesSum | AdvancedDataStructures.Lookups/SkipLists/ShardedSkipList.cs:53-57 | when every item maps to a shard, the group sizes add up to the collection's size |
| ShardedSkipLists.StopFacts | AdvancedDataStructures.Lookups/SkipLists/ShardedSkipList.cs:59-62 | the group loop gets through every group exactly when every item maps to an existing shard; the shards it has filled are exactly those with items, unless a negative key stopped it first |
| ShardedSkipLists.MergeGroups | AdvancedDataStructures.Lookups/SkipLists/ShardedSkipList.cs:59-62 | each shard's bulk add: shard `j` merged with the sorted items that map to `j` |
| ShardedSkipLists.GroupsDone | AdvancedDataStructures.Lookups/SkipLists/ShardedSkipList.cs:59-62 | when the loop stops early at a key past the last shard, the shards filled so far are exactly those of the full result; a negative first key leaves every shard as it was |
| ShardedSkipLists.MergeGroupsLength | AdvancedDataStructures.Lookups/SkipLists/ShardedSkipList.cs:51-63 | adding all groups raises the total by the collection's size |
| ShardedSkipLists.StopAt | AdvancedDataStructures.Lookups/SkipLists/ShardedSkipList.cs:59-62 | where the group loop stops: every key before it names a shard that does not end in a null entry, and the key at it (if any) is outside the shards or names one that does |
| ShardedSkipLists.StopAtAll | AdvancedDataStructures.Lookups/SkipLists/ShardedSkipList.cs:59-62 | the loop gets through every group exactly when every item's key names a shard and no such shard ends in a null entry |
| ShardedSkipLists.StopAtNegative | AdvancedDataStructures.Lookups/SkipLists/ShardedSkipList.cs:53-62 | a negative key comes first in the ordered keys, so the loop stops before adding any group |
| ShardedSkipLists.LoopStopped | AdvancedDataStructures.Lookups/SkipLists/ShardedSkipList.cs:51-63 | from where the loop stopped and why: success exactly when all items map to shards without a null entry, a negative key leaves every shard as it was, and without null entries the result is the full grouped merge or nothing |
| ShardedSkipLists.CellsIndex | AdvancedDataStructures.Lookups/SkipLists/ShardedSkipList.cs:45 | copying items into cells makes cell `i` hold item `i` |
| ShardedSkipLists.NullsIndex | AdvancedDataStructures.Lookups/SkipLists/ShardedSkipList.cs:46 | every cell of a run of nulls is null |
| ShardedSkipLists.SplitAppend | AdvancedDataStructures.Lookups/SkipLists/ShardedSkipList.cs:45-46 | the null count and the items of two adjoining cell ranges add up |
| ShardedSkipLists.SplitNulls | AdvancedDataStructures.Lookups/SkipLists/ShardedSkipList.cs:46 | `n` null cells hold `n` nulls and no item |
| ShardedSkipLists.SplitCells | AdvancedDataStructures.Lookups/SkipLists/ShardedSkipList.cs:45 | cells filled from items hold no null and exactly those items |
| ShardedSkipLists.CellsLength | AdvancedDataStructures.Lookups/SkipLists/ShardedSkipList.cs:45-46 | every cell is either a null or an item |
| ShardedSkipLists.NullsThenSorted | AdvancedDataStructures.Lookups/SkipLists/ShardedSkipList.cs:46 | nulls followed by items in key order are in the order `Array.Sort` leaves with the default comparer |
| ShardedSkipLists.SortCellsSorted | AdvancedDataStructures.Lookups/SkipLists/ShardedSkipList.cs:46 | sorting the cells leaves them in that order, keeps the number of nulls and permutes the items |
| ShardedSkipLists.CopiedSplit | AdvancedDataStructures.Lookups/SkipLists/ShardedSkipList.cs:45 | after `List.CopyTo`, the array holds the nulls of the slots outside the copied range, and the items of those slots together with the copied ones |
| ShardedSkipLists.CopySorted | AdvancedDataStructures.Lookups/SkipLists/ShardedSkipList.cs:45-46 | `List.CopyTo` then `Array.Sort`: the argument checks of `List.CopyTo`; then every null cell comes first and the items follow in key order, the nulls being those of the slots outside the copied range and the items a permutation of those slots' items plus the copied ones |
| ShardedSkipLists.ClearAll | AdvancedDataStructures.Lookups/SkipLists/ShardedSkipList.cs:28-34 | each shard is cleared in turn |
| ShardedSkipLists.ShardedSkipList.Counts | AdvancedDataStructures.Lookups/SkipLists/ShardedSkipList.cs:13 | one count per shard, each being that shard's `Count` |
| ShardedSkipLists.ShardedSkipList.Count | AdvancedDataStructures.Lookups/SkipLists/ShardedSkipList.cs:13 | the sum of the shard counts is, while the shards are valid, the number of enumerated elements |
| ShardedSkipLists.ShardedSkipList.PlacedLookup | AdvancedDataStructures.Lookups/SkipLists/ShardedSkipList.cs:24 | an item is in the collection exactly when it is in the shard its key names, so single-shard lookups are complete |
| ShardedSkipLists.ShardedSkipList.Of | AdvancedDataStructures.Lookups/SkipLists/ShardedSkipList.cs:21 | the list over fresh shards is valid and empty |
| ShardedSkipLists.ShardedSkipList.Create | AdvancedDataStructures.Lookups/SkipLists/ShardedSkipList.cs:16-22 | fewer than one shard throws `ArgumentOutOfRangeException`; a null function throws `ArgumentNullException`; otherwise an empty list of `shardCount` shards |
| ShardedSkipLists.ShardedSkipList.Add | AdvancedDataStructures.Lookups/SkipLists/ShardedSkipList.cs:26 | a shard index outside the list throws `ArgumentOutOfRangeException`; otherwise only the owning shard gets the item, at its ceiling, and `Count` rises by one; every other shard is unchanged and the set of shards ending in a null entry is the same afterwards |
| ShardedSkipLists.ShardedSkipList.Clear | AdvancedDataStructures.Lookups/SkipLists/ShardedSkipList.cs:28-34 | every shard is fresh, there are no elements, and `Count` is 0 |
| ShardedSkipLists.ShardedSkipList.Contains | AdvancedDataStructures.Lookups/SkipLists/ShardedSkipList.cs:36 | the owning shard's answer; any item stored in the collection is found |
| ShardedSkipLists.ShardedSkipList.Remove | AdvancedDataStructures.Lookups/SkipLists/ShardedSkipList.cs:49 | the owning shard's removal; only a hit changes anything, and then `Count` falls by one and the owning shard ends in a null entry exactly when it is not empty and either did before or lost its last node; every other shard is unchanged |
| ShardedSkipLists.ShardedSkipList.Find | AdvancedDataStructures.Lookups/SkipLists/ShardedSkipList.cs:65 | the owning shard's `Find`; a found element has the key and is in the collection |
| ShardedSkipLists.ShardedSkipList.FindOrDefault | AdvancedDataStructures.Lookups/SkipLists/ShardedSkipList.cs:67-68 | the owning shard's answer; anything other than the default has the key and is in the collection |
| ShardedSkipLists.ShardedSkipList.Enumerate | AdvancedDataStructures.Lookups/SkipLists/ShardedSkipList.cs:70 | the shards' elements concatenated in shard order, `Count` of them |
| ShardedSkipLists.ShardedSkipList.CopyTo | AdvancedDataStructures.Lookups/SkipLists/ShardedSkipList.cs:38-47 | the argument checks, then the whole array sorted with its null cells first: the nulls outside the copied range are kept, and the items are a permutation of the untouched slots' items plus every element |
| ShardedSkipLists.ShardedSkipList.AddGroup | AdvancedDataStructures.Lookups/SkipLists/ShardedSkipList.cs:61 | one group bulk-added to its shard: a shard ending in a null entry throws `NullReferenceException` and nothing changes; otherwise that shard becomes its merge with the sorted group; no other shard changes, and the set of shards ending in a null entry is the same afterwards |
| ShardedSkipLists.ShardedSkipList.AddRange | AdvancedDataStructures.Lookups/SkipLists/ShardedSkipList.cs:51-63 | null throws `ArgumentNullException`; the groups are added in key order until a key is not a shard index (`ArgumentOutOfRangeException`) or names a shard ending in a null entry (`NullReferenceException`), the shards of the earlier keys being filled; it succeeds exactly when neither happens; a negative key changes nothing; on success `Count` rises by the collection's size; the set of shards ending in a null entry is the same afterwards |
| ShardedSkipLists.ShardedSkipList.AddGroups | AdvancedDataStructures.Lookups/SkipLists/ShardedSkipList.cs:59-62 | the loop adds the groups of the first `t` keys, each naming a shard without a null entry, and stops at a key that is not a shard index or names a shard with one, throwing the matching exception |
| ShardedSkipLists.ShardedSkipList.AddKey | AdvancedDataStructures.Lookups/SkipLists/ShardedSkipList.cs:61 | one iteration: a key outside the shards throws `ArgumentOutOfRangeException`, a shard ending in a null entry throws `NullReferenceException`, each with nothing changed; otherwise that key's group is merged into its shard and no other shard changes |
| ComparableShardedSkipLists.ReplaceKeepsUnique | AdvancedDataStructures.Lookups/SkipLists/ComparableShardedSkipList.cs:8 | an update in one shard keeps keys unique in every shard |
| ComparableShardedSkipLists.InsertKeepsUnique | src/AdvancedDataStructures.Lookups/SkipLists/ComparableShardedSkipList.cs:7-13 | adding an absent key to one shard keeps keys unique in every shard |
| ComparableShardedSkipLists.ComparableShardedSkipList.Of | src/AdvancedDataStructures.Lookups/SkipLists/ComparableShardedSkipList.cs:3-5 | a valid, empty list over uniqueness shards |
| ComparableShardedSkipLists.ComparableShardedSkipList.Create | src/AdvancedDataStructures.Lookups/SkipLists/ComparableShardedSkipList.cs:3-5 | the base constructor's checks, then `shardCount` new empty uniqueness shards |
| ComparableShardedSkipLists.ComparableShardedSkipList.Add | AdvancedDataStructures.Lookups/SkipLists/ShardedSkipList.cs:26 | routed to the owning uniqueness shard: a present key throws `InvalidOperationException` with nothing changed, otherwise the item is added and keys stay unique; no other shard changes, and the set of shards ending in a null entry is the same afterwards |
| ComparableShardedSkipLists.ComparableShardedSkipList.Update | AdvancedDataStructures.Lookups/SkipLists/ComparableShardedSkipList.cs:8 | routed to the owning shard: the answer is whether that shard had the key, the shard's run of equal elements is overwritten, a hit makes the new value findable, and `Count`, key uniqueness and the set of shards ending in a null entry are kept |
| LegacySkipLists.AddEachSortedPermutation | AdvancedDataStructures.Lookups/SkipList.cs:27-36 | adding items one by one keeps the chain sorted and adds exactly those items |
| LegacySkipLists.Descend | AdvancedDataStructures.Lookups/SkipList.cs:52-65 | the descent stops just before the first element not less than the probe |
| LegacySkipLists.SkipList.constructor | AdvancedDataStructures.Lookups/SkipList.cs:25 | a valid, empty list |
| LegacySkipLists.SkipList.FromCollection | AdvancedDataStructures.Lookups/SkipList.cs:27-36 | null throws `ArgumentNullException`; otherwise the items are added one by one, and the result is a sorted permutation of them with `Count` equal to their number |
| LegacySkipLists.SkipList.Add | AdvancedDataStructures.Lookups/SkipList.cs:48-88 | null throws `ArgumentNullException`; otherwise the value is spliced in at its ceiling and `Count` rises by one |
| LegacySkipLists.SkipList.Clear | AdvancedDataStructures.Lookups/SkipList.cs:90-95 | the list is fresh and empty again |
| LegacySkipLists.SkipList.Contains | AdvancedDataStructures.Lookups/SkipList.cs:97-115 | null throws `ArgumentNullException`; otherwise whether some element has the key |
| LegacySkipLists.SkipList.CopyTo | AdvancedDataStructures.Lookups/SkipList.cs:117-133 | the checks of the current `CopyTo` against `Count`, then the elements in order from `arrayIndex` |
| LegacySkipLists.SkipList.Find | AdvancedDataStructures.Lookups/SkipList.cs:135-154 | `KeyNotFoundException` only when every element is less than the probe; otherwise the first element not less than it, which is equal exactly when the key is present |
| LegacySkipLists.SkipList.FindOrDefault | AdvancedDataStructures.Lookups/SkipList.cs:156-168 | the first element not less than the probe, or the default when there is none |
| LegacySkipLists.SkipList.Remove | AdvancedDataStructures.Lookups/SkipList.cs:170-201 | a miss answers false; a hit on the last element throws `KeyNotFoundException` with nothing changed; any other hit unlinks the first element with the key and leaves `Count` unchanged |
| LegacySkipLists.SkipList.Enumerate | AdvancedDataStructures.Lookups/SkipList.cs:203-211 | the chain's contents, sorted, at most `Count` of them |
| Tries.IsWhiteSpace | src/AdvancedDataStructures.Trie/Trie.cs:19 | `char.IsWhiteSpace`'s range tests accept exactly the 25 white-space characters of .NET, listed one by one |
| Tries.SkipLeading | src/AdvancedDataStructures.Trie/Trie.cs:19 | the forward scan stops at the first character that is not white space, everything it skipped being white space |
| Tries.SkipTrailing | src/AdvancedDataStructures.Trie/Trie.cs:19 | the backward scan stops just after the last character that is not white space (or at the forward scan's stop), everything it skipped being white space |
| Tries.Trim | src/AdvancedDataStructures.Trie/Trie.cs:19-20 | the result is empty exactly when the input is blank, and otherwise starts and ends with non-white characters |
| Tries.TrimSlice | src/AdvancedDataStructures.Trie/Trie.cs:19 | the trimmed word is the slice of the input that starts after the leading white space, with only white space before and after it |
| Tries.Slot | src/AdvancedDataStructures.Trie/Trie.cs:25 | the first position holding a character in the children list, or the end when there is none |
| Tries.Child | src/AdvancedDataStructures.Trie/Trie.cs:35 | `TryGetValue` fails exactly when no child has the character, and a found child is one of the entries |
| Tries.ChildOfEntry | src/AdvancedDataStructures.Trie/Trie.cs:9 | with distinct keys, looking up an entry's character finds that entry's child |
| Tries.Reach | src/AdvancedDataStructures.Trie/Trie.cs:43 | following a string's characters from a node ends, when it does not fall off, on a node of the trie |
| Tries.ReachConcat | src/AdvancedDataStructures.Trie/Trie.cs:22-28 | following `u + v` is following `u` and then `v` |
| Tries.ReachLabel | src/AdvancedDataStructures.Trie/Trie.cs:64-67 | the node reached by following `u` from `n` is the one spelt by `n`'s spelling plus `u` |
| Tries.EmptyIsNoWord | src/AdvancedDataStructures.Trie/Trie.cs:13 | the root is never a word end, so the empty string is never stored |
| Tries.AddChild | src/AdvancedDataStructures.Trie/Trie.cs:25-26 | a missing child is added as a new unmarked node; old nodes keep their children as a prefix of the new list, and the lookup now finds the new node |
| Tries.AddChildShaped | src/AdvancedDataStructures.Trie/Trie.cs:25-26 | adding the child for the next character keeps the trie well shaped, with the new node spelling the walked prefix plus that character |
| Tries.GrownReach | src/AdvancedDataStructures.Trie/Trie.cs:25-26 | growing the trie never changes where an existing path leads |
| Tries.WalkFollow | src/AdvancedDataStructures.Trie/Trie.cs:27 | stepping to an existing child keeps the walk invariant: the current node spells the word's first `i + 1` characters |
| Tries.WalkCreate | src/AdvancedDataStructures.Trie/Trie.cs:25-27 | creating and stepping to a new child keeps the walk invariant |
| Tries.WalkDone | src/AdvancedDataStructures.Trie/Trie.cs:22-28 | after the loop the current node spells the whole word, and a word already stored left the trie untouched |
| Tries.MarkWord | src/AdvancedDataStructures.Trie/Trie.cs:29 | marking the node that spells the word makes the stored words exactly the old ones plus the word, and marking an already stored word changes nothing |
| Tries.ReachStep | src/AdvancedDataStructures.Trie/Trie.cs:35 | one lookup step follows the word one character further, and a missing child means the word is not in the trie |
| Tries.TraverseWords | src/AdvancedDataStructures.Trie/Trie.cs:70-80 | the traversal below a node with a given prefix yields exactly the prefix followed by each word stored below that node |
| Tries.TraverseDistinct | src/AdvancedDataStructures.Trie/Trie.cs:70-80 | the traversal yields no word twice |
| Tries.PrefixWords | src/AdvancedDataStructures.Trie/Trie.cs:38-52 | from the node a prefix reaches, the traversal yields exactly the stored words with that prefix; when no node is reached, no stored word has the prefix |
| Tries.AllWords | src/AdvancedDataStructures.Trie/Trie.cs:54-57 | the traversal from the root with the empty prefix yields exactly the stored words, each once |
| Tries.InsertWord | src/AdvancedDataStructures.Trie/Trie.cs:22-29 | walking the word and creating the missing children, then marking the last node, adds exactly that word; the trie stays well shaped, and a stored word leaves it unchanged |
| Tries.Trie.constructor | src/AdvancedDataStructures.Trie/Trie.cs:13 | a trie holding no word |
| Tries.Trie.Insert | src/AdvancedDataStructures.Trie/Trie.cs:15-30 | null throws `ArgumentNullException`; a blank word changes nothing; otherwise the stored words become the old ones plus the trimmed word, and re-inserting a stored word changes nothing |
| Tries.Trie.Search | src/AdvancedDataStructures.Trie/Trie.cs:32-36 | null throws `ArgumentNullException`; otherwise whether the word (untrimmed) is stored; the empty string is never found |
| Tries.Trie.QueryWords | src/AdvancedDataStructures.Trie/Trie.cs:38-52 | null throws `ArgumentNullException`; an unreached prefix gives the empty list; otherwise the list holds exactly the stored words that start with the prefix, each once |
| Tries.Trie.Enumerate | src/AdvancedDataStructures.Trie/Trie.cs:54-57 | the enumeration holds exactly the stored words, each once |
| Tries.Trie.CollectWords | src/AdvancedDataStructures.Trie/Trie.cs:59-68 | the recursive collection appends to the results exactly the words the lazy traversal yields, in the same order |

## Left out

- Concurrency: the `lock` statements, `Interlocked.Increment` and the node locks are not modelled. Each operation runs alone.
- Randomness: `RandomLevel` takes the number of coin flips that came up heads as a parameter. Since its result never exceeds `MaxLevel` (which stays 0), the number chosen has no effect.
- `AsParallel().OrderBy(...)` is modelled as the stable sort `SortItems`. PLINQ's `OrderBy` is not stable, so the source may put elements with equal keys in any order; the contracts of `AddRange`, `BulkAdd` and the bulk constructors describe one of the orders it may produce, and `Items.SortSortedIsIdentity` holds for that order only. Lazy enumerators are modelled as sequences, and the non-generic `IEnumerable.GetEnumerator` overloads as the generic ones.
- Only level 0 of the skip lists is modelled, because no level above 0 is ever linked. The code paths for `level > MaxLevel` and the `MaxLevel--` loop in `Remove` are therefore never entered.
- Null elements inside a collection passed to `AddRange`, to the bulk constructor or to the sharded `AddRange` are not modelled: sequences hold items only. For the same reason, the sharded list's operations take the item itself, not an optional one.
- The shard function is a total Dafny function, so an exception thrown inside it is not modelled.
- `Array.Sort` is not stable. `ShardedSkipLists.CopySorted` promises only the sorted order and which items and how many nulls the array holds, not a particular order among elements with equal keys.
- ShardedSkipLists.ShardedSkipList.AddRange: the shard call `AddRange(shard)` at ShardedSkipList.cs:61 is not declared in `ISkipList<T>` (ISkipList.cs:3-7) or in `ICollection<T>`, so the source as given does not say which method it binds to. The model binds it to `SkipLists.SkipList.AddRange`, the corrected merge. With the merge as written (see Findings), a group holding an item greater than its shard's first element would run forever on a shard that does not end in a null entry, and may throw `NullReferenceException` on one that does.
- SkipLists.SkipList.FromCollection: a null collection, which `AddRange` refuses with `ArgumentNullException`, is not a possible argument, because a constructor cannot fail; `SkipLists.SkipList.AddRange` models that case.
- ComparableSkipLists.ComparableSkipList.FromCollection: the same applies to the uniqueness list's bulk constructor, which keeps duplicate keys from the collection as the base one does.
- ComparableShardedSkipLists.ComparableShardedSkipList.Update: key uniqueness is tracked per shard only. The sharded list never checks keys across shards, and a shard function that sends equal keys to different shards is allowed.
- The members that `ComparableShardedSkipList` inherits (`Clear`, `Contains`, `CopyTo`, `Remove`, `AddRange`, `Find`, `FindOrDefault`, enumeration) are called through its `base` object and are modelled once, in `ShardedSkipLists.ShardedSkipList`.
- The two revisions of `ComparableShardedSkipList` share one model. The older file has only the generic class. The newer one adds the `ComparableShardedSkipList<T>` shorthand over `ComparableSkipList<T>` shards, which is what `Create` builds.
- LegacySkipLists.SkipList: `_count` is a 32-bit `int` (SkipList.cs:16) that `Add` raises (line 87) and `Remove` never lowers, so 2^31 `Add`/`Remove` pairs wrap it to a negative value with bounded memory; after that the room check of `CopyTo` (line 123) never throws. The model's `count` is unbounded and its invariant keeps it at least the number of elements, so the wrapped state is not modelled.
- SkipLists.SkipList.CopyTo and LegacySkipLists.SkipList.CopyTo compare the room left against `Count`, as the source does. In the legacy list `Count` may exceed the number of elements, and then only the existing elements are written.
- Trie: nodes are arena handles, not object references. Characters are Dafny `char`s compared exactly, and `char.IsWhiteSpace` is the fixed set of .NET white-space characters; `Trim` uses that set.
- Trie: C# strings are sequences of UTF-16 code units, while a Dafny `char` is a Unicode scalar value. A character outside the Basic Multilingual Plane is therefore one trie edge here but two edges (a surrogate pair) in the source. Strings holding a lone surrogate, such as a `QueryWords` prefix that ends inside a pair, are not modelled.
- Trie: a `Dictionary` enumerates in insertion order only while nothing is removed. The trie never removes children, so the model fixes that order.
- Trie: the tests' case-insensitive and `isCaseSensitive` constructor cases describe a constructor the class does not have. The model follows the class, which compares characters exactly and does not trim in `Search` or `QueryWords`.
- `IsReadOnly` is a constant `false` and is not modelled.

## Findings

| source | as written | input that shows it | evidently intended | confidence | as-written member | corrected member |
|---|---|---|---|---|---|---|
| AdvancedDataStructures.Lookups/SkipLists/SkipList.cs:57-77 | one cursor, `current`, serves both as the position in the old chain and, after `tempCurrent = next; current = next`, as a node of the new chain; appending a new item then rewrites that node's own entry, so the draining loop walks into the new chain and finally links its last node to itself and spins forever | `AddRange([Item(2)])` on a list holding `Item(1)`: the old node is moved, the new node is linked after it, and the draining loop sets the new node's entry to itself | a sorted merge of the old chain and the new items behind the new head, here `[Item(1), Item(2)]` | not executed | BulkAddAsWritten.DivergesOnLargerItem | SkipLists.SkipList.BulkAdd |
