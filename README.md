# Echo_db core in Dafny

Echo_db is an in-memory key/value store written in Go. Its core is two files.

- `db/echoDB.go` holds the store. The table maps each key to an `Item`, which records:
  - the value;
  - an access count (`Frequency`);
  - the time of the last access;
  - an expiry time, fixed when the entry is created.

  The store's operations are:
  - Insert, an upsert;
  - Delete;
  - Query, which counts an access on a hit;
  - capacity eviction (`evictData`), which removes one entry with the fewest accesses and, among those, the earliest last access;
  - an expiry sweep (`evictExpiredData`);
  - a range query over the index.

  A background ticker runs the sweep and then the capacity check once a minute.
- `db/B+.go` is the index tree over the keys. It is a B+-style tree of string keys with a forward chain `next` between leaves. Its operations are:
  - Insert, which splits full nodes on the way down;
  - Search;
  - Delete, with a predecessor replacement in internal nodes;
  - rebalancing by borrowing from a sibling or merging.

The model has four modules, one per file:

- `KeyOrder` (`key_order.dfy`):
  - Go's string order;
  - `sort.Strings`, modelled as an insertion sort and proved to be the unique sorted permutation.
- `BPlusArena` (`bplus_arena.dfy`):
  - the tree's nodes as an arena, a `seq<BPlusNode>` whose child and `next` references are positions in it;
  - the shape and link invariants;
  - the key scans;
  - ghost descriptions of descents and of the leaf chain.
- `BPlus` (`bplus_tree.dfy`):
  - the tree as a class, with `nodes` and `root` as fields its methods reassign;
  - each Go method as a method proved against a function or predicate on node values;
  - Go panics (index or slice bounds out of range) as a `panicked` result, with the arena exactly as it was at the panicking statement.
- `Echo` (`echo_db.dfy`):
  - the store as a class whose `data` map its methods replace, over a `BPlusTree` that they update;
  - clock readings as the parameter `now`, an integer count of nanoseconds.

`EchoDB.Valid` is the store's invariant, and every operation keeps it:

- the index tree is well formed;
- its root is a sorted leaf;
- every entry has at least one access.

### Behaviour of the code that the model reproduces

Each point below follows the Go code as written.

- `split` writes the middle key OVER the parent's key at `index` (`db/B+.go:64`), so the parent gains a child but no key. When `index` is at least `len(node.keys)`, the slice `node.keys[index+1:]` is out of range and the split panics. By then the child has already been cut and the new node linked in.
- A root that holds `degree` keys is split below a new root that has no keys (`db/B+.go:35-39`). That split always panics, so the new root is never installed and the key is not inserted. The old root keeps its lower half, the upper half follows it in the leaf chain, and the middle key is lost.
- As a consequence, the root of every tree that `NewBPlusTree`, `Insert` and `Delete` build is a leaf. `EchoDB.Valid` records this, and the store's contracts are stated on the root's keys.
- `delete` on an internal node that does not hold the key reads `node.keys[-1]` and panics (`db/B+.go:159`). The rebalancing call at `db/B+.go:170-175` can therefore never be reached. `Fix`, `BorrowFromPrev`, `BorrowFromNext` and `Merge` are modelled and proved as stand-alone operations.
- A tree insert that meets a full root panics before the size check of `db/echoDB.go:76-78`, so it skips the eviction. The table keeps the new entry either way. A table at `maxSize` therefore grows past it by one entry on each such insert of a new key. The size check in each later insert or tick evicts only one entry.
- A delete only ever removes a key from the root leaf (`db/B+.go:145-152`). After a failed root split, the upper half of the old root sits in a leaf chained after the root, and its keys are never deleted. Deleting or evicting such a key removes it from the table, but `RangeQuery` keeps reporting it. `Echo.ChainAfterRootKeys` states this: after a store operation, the walk meets the root's new keys followed by the unchanged chain behind the root.
- `RangeQuery` walks the `next` chain from the root, not from the leftmost leaf.
- On an empty table, both loops of evictData run no iteration, so `lowestFreqItems[0]` (`db/echoDB.go:147`) is never evaluated and nothing changes. `EchoDB.EvictData` states this.
- An Insert of a key that is already in the table updates its entry (`db/echoDB.go:56-60`) and still inserts the key into the index (`db/echoDB.go:73`). The root leaf then holds two copies (`db/B+.go:71`). Delete removes only the first copy that findKeyIndex finds (`db/B+.go:146-149`). After Insert(k), Insert(k), Delete(k), the key is gone from the table but `RangeQuery` still reports it. `Echo.ReinsertOutlivesDelete` proves it on the root leaf's keys, which `EchoDB.Insert` and `EchoDB.Delete` give exactly.
- Two descriptions of a descent exist on purpose. `DescentPath` (in `BPlusArena`) is the whole sequence of nodes visited, which the statements about Search use. `DescentLeaf`, `NoFullChild` and `MatchBelow` follow the same steps one node at a time. The methods' loops and recursion are proved against these directly, which keeps those proofs small. `DescentLeafEndsPath`, `NoFullChildOnPath` and `MatchBelowOnPath` prove that the two descriptions agree. Likewise, the one-case lemmas beside `Deleted` (`DeletedLeaf`, `DeletedAbsent`, `DeletedEmptyChild`, `DeletedNoPred`, `DeletedByPred`, `DeletedAt`) each name one case of its definition, so that `DeleteFrom` never has to unfold it.

## Model

| member | source | states |
|---|---|---|
| KeyOrder.Less | db/B+.go:77 | Go's `<` on strings: lexicographic order on characters, where a proper prefix is smaller; also the `>` of the scans at db/B+.go:94 and 276 |
| KeyOrder.LessEq | db/echoDB.go:196 | Go's `<=` on strings, by which RangeQuery compares each key with its bounds in `key >= startKey && key <= endKey` |
| KeyOrder.Sorted | db/B+.go:72 | the order `sort.Strings` leaves: each key is at most the one after it |
| KeyOrder.Sort | db/B+.go:71-72 | `sort.Strings`: the result is sorted and is a permutation of the input |
| KeyOrder.InsertSorted | db/B+.go:71-72 | placing one key into a sorted slice keeps it sorted and adds exactly one copy of the key |
| KeyOrder.SortedUnique | db/B+.go:72 | two sorted sequences with the same elements are equal, so any correct sort gives the same slice |
| KeyOrder.SortAppendedIsInsert | db/B+.go:70-72 | append-then-sort of a sorted leaf is inserting the key in order, duplicates kept |
| KeyOrder.SortedPrefix | db/B+.go:54 | the lower half a split keeps of sorted keys is sorted |
| BPlusArena.BPlusNode | db/B+.go:11-16 | a node: leaf flag, keys, children as arena positions, and the `next` link as a position or nil |
| BPlusArena.FirstNotLess | db/B+.go:76-79 | where the scan `key > keys[i]` stops: every earlier key is smaller, the key there is not |
| BPlusArena.MatchAt | db/B+.go:93-98 | Search's test at one node: the key at the position where the scan stops equals the key |
| BPlusArena.MatchAtSorted | db/B+.go:93-100 | on sorted keys, a match where the scan stops is exactly membership of the key |
| BPlusArena.KeyIndex | db/B+.go:271-281 | findKeyIndex's answer: -1 or a position holding the key, with every key before it smaller |
| BPlusArena.KeyIndexSorted | db/B+.go:271-281 | on sorted keys the index is -1 exactly when the key is absent, and is its first occurrence |
| BPlusArena.RemoveKey | db/B+.go:145-152 | when findKeyIndex finds the key, exactly that entry is cut out: the keys before and after it keep their places and one copy of the key is gone; otherwise nothing changes |
| BPlusArena.RemoveKeySorted | db/B+.go:145-152 | a leaf delete on sorted keys keeps them sorted and removes exactly one copy of the key, or nothing |
| BPlusArena.DescentPath | db/B+.go:90-109 | the nodes a descent visits are arena nodes, start at the given node and end at a leaf |
| BPlusArena.ChainKeys | db/echoDB.go:194-200 | the keys met walking `next` from a node, node after node, as the range query's loop visits them |
| BPlusArena.RightmostLeaf | db/B+.go:179-183 | the last-child descent of getPred ends at a leaf |
| BPlus.Half | db/B+.go:171 | Go's `degree/2`, truncating toward zero for negative degrees as well |
| BPlus.SplitNode | db/B+.go:47-62 | the halves: child keeps `keys[:mid]`, the new node gets `keys[mid+1:]`, `keys[mid]` goes up; a leaf links the new node after itself and passes on its old `next`; an internal node's children are divided after `mid` |
| BPlus.SplitParent | db/B+.go:64-65 | the parent's key at `index` is overwritten by the middle key and the new node becomes child `index + 1`, the other children keeping their order |
| BPlus.SplitChildValid | db/B+.go:47-62 | cutting a child and appending the new node keeps the arena's shape and acyclic leaf chain |
| BPlus.SplitParentValid | db/B+.go:64-65 | the rewritten parent keeps the arena well formed |
| BPlus.BPlusTree.Split | db/B+.go:46-66 | the whole arena after a split: the panic on an empty child, the panic after the cut when `index` has no key, and the completed split otherwise |
| BPlus.SkipSmaller | db/B+.go:76-79 | the scan loop stops at FirstNotLess; on sorted keys every key from there on is not smaller |
| BPlus.BPlusTree.Valid | db/B+.go:11-30 | the tree invariant: the root is a node of the arena, every node has the shape the code relies on, and the leaf chain has no cycle |
| BPlus.DescentLeaf | db/B+.go:76-86 | the leaf a descent for the key ends at, which DescentLeafEndsPath ties to the end of the descent path |
| BPlus.NoFullChild | db/B+.go:80 | no child the descent moves to holds `degree` keys, so the split at line 80 never runs |
| BPlus.DescentLeafEndsPath | db/B+.go:76-86 | DescentLeaf is the last node of the descent path |
| BPlus.NoFullChildOnPath | db/B+.go:80 | NoFullChild holds exactly when no node after the first on the descent path holds `degree` keys |
| BPlus.BPlusTree.InsertNonFull | db/B+.go:69-87 | a leaf becomes `sort(keys ++ [key])`, sorted with one more copy of the key, all other nodes unchanged; when no child on the descent is full, exactly the leaf the descent ends at gains the key, in order, and nothing else changes; after a descent that does not panic, some leaf holds the key |
| BPlus.BPlusTree.Insert | db/B+.go:33-43 | a root with `degree` keys always panics, leaving the old root's lower half, the keyless new root and the upper half; any other leaf root takes the key in order; the root stays a leaf |
| BPlus.BPlusTree.constructor | db/B+.go:25-30 | a new tree is one empty leaf root with the given degree |
| BPlus.DescentStep | db/B+.go:106 | an internal node's descent continues at the child the scan picks, one level lower |
| BPlus.MatchBelowOnPath | db/B+.go:90-109 | a match found going down from a node is a match at some node of its descent path |
| BPlus.MatchBelow | db/B+.go:92-107 | whether the descent from a node meets a node that matches at its scan position |
| BPlus.Descend | db/B+.go:91-108 | the search loop answers true exactly when going down meets a node whose key at the scan position is the key |
| BPlus.MatchOnSortedPath | db/B+.go:90-109 | on a path of sorted nodes, matching at the scan position is membership |
| BPlus.BPlusTree.Search | db/B+.go:90-109 | true exactly when some node on the descent path matches at the scan position, which is key membership on that path when its nodes are sorted |
| BPlus.FindKeyIndex | db/B+.go:271-281 | the loop computes KeyIndex; on sorted keys -1 exactly for an absent key, otherwise its first position |
| BPlus.GetPred | db/B+.go:179-185 | the predecessor is the last key of the rightmost leaf below the child, panicking exactly when that leaf is empty; on a sorted leaf it is the largest key |
| BPlus.Deleted | db/B+.go:143-176 | the result of delete by cases: a leaf loses the key findKeyIndex finds; an internal node without the key panics unchanged; a key above an empty child is cut out; otherwise the key is overwritten by the predecessor, panicking unchanged when the rightmost leaf is empty, and the predecessor is then deleted from the child in the same way, which fixes the result and the panic |
| BPlus.DeletedViaPred | db/B+.go:161-162 | the predecessor branch of delete: the key at `i` is overwritten by `pred` and `pred` is then deleted from child `i` of the rewritten arena, as Deleted recursively says |
| BPlus.DeleteFrom | db/B+.go:143-176 | the recursive delete computes Deleted; the arena stays well formed and no other node at or above this level changes |
| BPlus.CutKey | db/B+.go:145-165 | the cut of the key at findKeyIndex's position leaves the arena well formed, with only that node's keys changed, as RemoveKey says |
| BPlus.DeleteByPred | db/B+.go:159-162 | the predecessor branch of delete computes Deleted for that case, and the arena stays well formed |
| BPlus.DeletedAt | db/B+.go:145-159 | from Deleted back to the source's result: a leaf loses the key found and does not panic; an internal node without the key panics with the arena unchanged |
| BPlus.DeleteAtRoot | db/B+.go:128-140 | the tree's Delete on the arena: what Deleted says of the root, with the root moved to child 0 exactly when a normal return leaves it internal and without keys |
| BPlus.BPlusTree.Delete | db/B+.go:128-140 | the arena is Deleted from the root; a leaf root loses the key and nothing else changes; a delete that does not panic and leaves an internal root without keys makes child 0 the root |
| BPlus.BorrowPrev | db/B+.go:214-230 | one key is moved into the child and one out of the sibling, the parent keeps its key count; the order sibling, separator, child is preserved; the panics on a missing separator or an empty sibling |
| BPlus.BorrowNext | db/B+.go:233-249 | borrowing from the next sibling mirrors BorrowPrev: one key in, one key out, the key count of the parent kept, the order child, separator, sibling preserved |
| BPlus.MergeNodes | db/B+.go:252-268 | the left child becomes `left ++ [separator] ++ right` (children concatenated for internal nodes); the parent loses key `index` and child `index + 1`; no key is lost |
| BPlus.BorrowedFromPrev | db/B+.go:214-230 | the arena after borrowFromPrev: the child, the sibling and the parent replaced by BorrowPrev's results |
| BPlus.BorrowedFromNext | db/B+.go:233-249 | the arena after borrowFromNext: the child, the sibling and the parent replaced by BorrowNext's results |
| BPlus.Merged | db/B+.go:252-268 | the arena after merge: a panic with no change when `index` has no separator or right neighbour, otherwise the left child and the parent replaced by MergeNodes' results |
| BPlus.BorrowPrevValid | db/B+.go:214-230 | a borrow from the previous sibling that does not panic keeps the arena well formed |
| BPlus.BorrowNextValid | db/B+.go:233-249 | a borrow from the next sibling that does not panic keeps the arena well formed |
| BPlus.MergedValid | db/B+.go:252-268 | a merge keeps the arena well formed |
| BPlus.RebalancedValid | db/B+.go:214-268 | rewriting a parent, child and sibling so that children only move among them keeps the arena well formed |
| BPlus.BPlusTree.BorrowFromPrev | db/B+.go:214-230 | the arena after borrowFromPrev, panics included |
| BPlus.BPlusTree.BorrowFromNext | db/B+.go:233-249 | the arena after borrowFromNext, panics included |
| BPlus.BPlusTree.Merge | db/B+.go:252-268 | the arena after merge, with a panic and no change for an index without a separator or a right neighbour |
| BPlus.BPlusTree.Fix | db/B+.go:197-211 | borrows from the previous sibling when it has more than `degree/2` keys, else from the next one, else merges with the right neighbour or, for the last child, with the left one |
| Echo.Item | db/echoDB.go:11-16 | an entry's record: value, access count, last access and expiry, times in nanoseconds |
| Echo.Upsert | db/echoDB.go:55-70 | an existing entry gets the new value, one more access and `now`, and keeps its expiry; a new entry starts at one access and expires `lifetime` after `now`; no other entry changes |
| Echo.EchoDB.constructor | db/echoDB.go:30-37 | a new store is empty, holds at most 1000 entries that live 10 minutes, over a new tree of degree 3 |
| Echo.WithKeys | db/B+.go:145-152 | the arena with one node's keys replaced and every other node as it was |
| Echo.FailedRootSplit | db/B+.go:33-40 | the arena a panicking root split leaves: the old root's lower half, the keyless new root and the upper half linked after the root |
| Echo.EchoDB.Valid | db/echoDB.go:18-37 | the store invariant: the index has degree 3, is well formed and has a sorted leaf root; every entry has at least one access |
| Echo.EchoDB.IndexInsert | db/echoDB.go:73 | the tree insert seen from the store: a root with `degree` keys panics and leaves FailedRootSplit; any other root gains the key in order and nothing else in the arena changes |
| Echo.EchoDB.Insert | db/echoDB.go:51-81 | the upsert is kept even when the tree insert panics, which leaves FailedRootSplit and skips the eviction; otherwise the root gains the key and, if the table is then over `maxSize`, one victim of least accesses and earliest last access leaves the table and the root leaf; no other node changes; a table within `maxSize` stays within it unless the tree insert panics |
| Echo.EchoDB.Delete | db/echoDB.go:84-95 | the entry leaves the table (nothing changes for an absent key) and the root leaf loses one copy of the key; no other node changes |
| Echo.EchoDB.Query | db/echoDB.go:98-110 | a hit counts one more access, sets the last access to `now` and returns the record; a miss returns nothing and changes nothing |
| Echo.IsVictim | db/echoDB.go:113-154 | an entry evictData may remove: no entry has fewer accesses, and none with as few was last accessed earlier |
| Echo.LowestFrequency | db/echoDB.go:114-125 | the least access count of the table and every entry that has it, each once; nothing for an empty table |
| Echo.OldestKey | db/echoDB.go:128-135 | an entry with the earliest last access among the candidates, the first such in their order |
| Echo.EchoDB.EvictData | db/echoDB.go:113-154 | on a non-empty table exactly one entry is removed, from the table and from the root leaf, and it has the fewest accesses and, among those, the earliest last access; no other node changes; an empty table is left alone |
| Echo.EchoDB.EvictIfFull | db/echoDB.go:76-78 | the size check: a table over `maxSize` loses one victim, from the table and the root leaf, and shrinks by one; otherwise nothing changes |
| Echo.Unexpired | db/echoDB.go:164-165 | the entries the sweep keeps: those whose expiration is not before `now` |
| Echo.EchoDB.EvictExpiredData | db/echoDB.go:157-170 | the table keeps exactly the entries whose expiration is not before `now`, unchanged; the root leaf loses one copy of each removed key and no other node changes |
| Echo.EchoDB.MaintenanceTick | db/echoDB.go:177-185 | one tick: the unexpired entries remain, minus one victim among them when they are more than `maxSize`; the root leaf loses one copy of each key that left the table and no other node changes |
| Echo.KeysInRange | db/echoDB.go:194-201 | the filter keeps only keys from `startKey` to `endKey` and never grows the sequence |
| Echo.KeysInRangeCounts | db/echoDB.go:196-197 | every key in the range is kept as often as it occurs, and no other key |
| Echo.KeysInRangeAppend | db/echoDB.go:194-201 | filtering node after node is filtering all their keys together |
| Echo.FilterRange | db/echoDB.go:195-199 | the loop over one node's keys computes the filter of that node's keys in order |
| Echo.ChainStep | db/echoDB.go:194-200 | one step of the walk: a node's keys come before those of the rest of the chain, and `next` leads to a node of lower rank |
| Echo.CollectRange | db/echoDB.go:190-201 | the walk along `next` computes the filter of all keys met on the chain, node by node |
| Echo.ReinsertOutlivesDelete | db/echoDB.go:51-95 | two inserts of a key into the root leaf and one delete leave one copy more than before, so the key stays in the index after it leaves the table |
| Echo.ChainAvoidsRoot | db/echoDB.go:194-200 | the walk from a node ranked below the root never meets the root, so a change at the root does not affect it |
| Echo.ChainAfterRootKeys | db/echoDB.go:189-201 | after the root's keys change, the walk meets the new keys and then exactly the keys chained behind the root as before |
| Echo.EchoDB.RangeQuery | db/echoDB.go:189-204 | the keys from `startKey` to `endKey` met along the leaf chain from the root, in traversal order |

## Left out

- Concurrency: the `sync.RWMutex` is not modelled. Each operation is one atomic step, including Query's update of an `Item` under a read lock.
- startEvictionProcess: the goroutine and the one-minute `time.Ticker` are not modelled. One loop iteration is `EchoDB.MaintenanceTick`.
- `time.Now()` is the parameter `now`. Insert and evictExpiredData read the clock more than once, or before the lock, in the source; the model uses a single reading per operation.
- `Before` on `time.Time` is modelled as `<` on integer nanoseconds. Monotonic clock readings and time zones are not modelled.
- Echo.Upsert: `Frequency` is an unbounded integer. Go's `int` would wrap after 2^63 - 1 accesses.
- BPlus.BPlusTree.InsertNonFull: when a child on the way down holds `degree` keys and is split, the contract states only the well-formedness of the tree, the kept levels and that some leaf holds the key; it does not name the nodes that change. From the store this case cannot arise, since the root is always a leaf.
- Echo.EchoDB.Query: Go returns the `*Item` pointer, through which a caller could change the entry later. The model returns a copy of the record.
- Go slices and pointers are not modelled. A node's keys and children are values, so the backing arrays that `split` and `append` share between slices in the source are gone. The model therefore misses one behaviour. After a failed root split, the root's `keys[:mid]` (`db/B+.go:54`) keeps spare capacity that is shared with the split-off leaf's `keys[mid+1:]` (`db/B+.go:53`). A later append to the root at `db/B+.go:71` then overwrites that leaf's keys in Go. For example, with degree 3 and the panic recovered, inserting a, b, c, d, e, f leaves the Go chain as [a e f] then [f], while the model has [a e f] then [c]. The aliasing of the left and right results of `merge`, and a child sharing a slot with its sibling in `borrowFromPrev`/`borrowFromNext`, are excluded by the precondition that a parent's children are distinct (`DistinctChildren`).
- Go map iteration order is unspecified in the source. The model picks the next entry with `:|`, so every order is covered. Which entry is evicted among ties in both access count and last access is left open ("some victim").
- evictData finds the victim's key by comparing `*Item` pointers. The model identifies an entry by its key, which is the same entry because each key has its own record.
- Echo.EchoDB.RangeQuery prints its result with `fmt.Println` in the source; the model returns it.
- PrintTree (`db/B+.go:112-125`) and PrintIndex (`db/echoDB.go:207-209`) are console output.
- getSucc (`db/B+.go:188-194`) is never called.
- NewEchoDB's configuration and gossip engine are not part of this model: `db/gossip.go`, `db/service.go`, `db/version.go`, `db/mysql.go`, `config/config.go`, `main.go`, `models/item.go` and `docs/docs.go`.
- `delete`'s rebalancing path (`db/B+.go:170-175`) cannot be reached, because an index of -1 panics first at `db/B+.go:159`. `DeleteFrom` therefore never calls `Fix`, which is proved on its own.
- The keys are compared as sequences of characters. Go compares the UTF-8 bytes, which orders code points the same way for valid UTF-8 keys. Byte strings that are not valid UTF-8 are not modelled.
