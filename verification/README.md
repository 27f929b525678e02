# intrhash in Dafny

A model of the intrusive chained hash table of the `intrhash` library, with
proofs about it. The model covers:

- the engine `intrhash_t`;
- the owning table `ownintrhash_t`;
- the four containers built on the engine: `intrhash_map_t`,
  `intrhash_multimap_t`, `intrhash_set_t` and `intrhash_multiset_t`.

The engine keeps no chain of its own. Each node carries a `next_` link, and
the links thread every node through the bucket array:

- each bucket slot holds the first node of its chain;
- the last node of a chain, or an empty slot, holds a pointer to the next
  slot with bit 0 set;
- one extra sentinel slot at the end holds null.

So a walk from slot 0 visits every node in bucket order and stops at the
sentinel. That walk is also how the table iterates.

## Layout

| file | module | what it holds |
|---|---|---|
| links.dfy | `Links` | `Link = Cont(slot) \| Item(node) \| End`, the tagged value of one cell; `Ctx`, the address of a cell; `Entry(key, value)`, what a node carries |
| buckets.dfy | `IntrHashPriv` | the prime table and `BucketsCount` (`buckets_count`) |
| chains.dfy | `Chains` | the iteration order `Flat(chains)`, key counts, and the key-grouping invariant `Grouped` |
| threads.dfy | `Threads` | `Threaded`: the bucket slots and the node links spell out the ghost chains; `push_item_` and `pop_item_` preserve it |
| copies.dfy | `Copies` | what the clone constructor builds, bucket by bucket |
| engine.dfy | `Engine` | class `IntrHash`: the bucket array, the node arena, and every engine operation |
| ledger.dfy | `Ledger` | which nodes an owning table has destroyed |
| owner.dfy | `Owning` | class `OwnIntrHash` (`ownintrhash_t`) |
| hashmap.dfy | `HashMap` | classes `Map` and `MultiMap` |
| hashset.dfy | `HashSet` | classes `Set` and `MultiSet` |

How the engine's state is represented:

- Nodes are indices into an arena. `links[n]` is the `next_` field of node `n`
  and `entries[n]` is its payload.
- The bucket array is an `array<Link>` of `nb + 1` slots, and `nitems` is
  `nitems_`.
- The ghost field `chains` lists the nodes of each bucket. `Order()`, their
  concatenation, is the iteration order. `Occ(k)` counts the linked nodes with
  key `k`.
- The class invariant `Valid()` says:
  - the cells spell out `chains`;
  - every linked node is in the bucket its key hashes to;
  - no node is linked twice;
  - a node's link is null exactly when the node is unlinked;
  - the bucket count is a table prime;
  - `nitems` is the number of linked nodes;
  - in each chain, the nodes of one key are consecutive.

Mutating operations are methods that change these fields. Read-only loops
(`find_ctx_`, `count`, the iterator's `next`) are methods with loop
invariants. Each method is specified over `Order()` and `Occ`.

## Model

| member | source | states |
|---|---|---|
| IntrHashPriv.BucketsCount | intrhash/intrhash.h:40-58 | the result is in the prime table and at least 7; for `n` up to the largest prime it is the least table entry that is at least `n`; above that it is the largest prime, because the search range stops before the last entry |
| IntrHashPriv.LowerBound | intrhash/intrhash.h:56 | `std::lower_bound`: every entry before the result is below `n`, and the result is the end of the range or an entry at least `n` |
| IntrHashPriv.BucketCountAtLeast | intrhash/intrhash.h:40-58 | every bucket count is at least 7 |
| IntrHashPriv.BucketsCountMonotone | intrhash/intrhash.h:40-58 | a larger request never yields fewer buckets |
| IntrHashPriv.BucketsCountGrows | intrhash/intrhash.h:569-586 | asking for more than `nb` buckets yields at least `nb`, and exactly `nb` only when `nb` is the largest prime |
| Engine.InitBuckets | intrhash/intrhash.h:365-379 | every slot but the last holds the continuation to the next slot; the last holds null |
| Engine.IntrHash.BucketAtPos | intrhash/intrhash.h:317-325 | `ctx_bucket_` read at a position is true exactly when the position is the end of a chain; before that end the cell holds the node at that position (`ctx_item_`), and at the sentinel it holds null |
| Engine.IntrHash.NextCtxBucket | intrhash/intrhash.h:327-330 | a continuation read at the end of chain `b` leads to position (b + 1, 0) |
| Engine.IntrHash.NextCtxItem | intrhash/intrhash.h:332-335 | the node read at position (b, j) is node `j` of chain `b`, and its link is position (b, j + 1) |
| Engine.IntrHash.ItemCtx | intrhash/intrhash.h:337-343 | skipping continuations reaches a cell holding a node or null; the rest of the order from there is unchanged, and the cell holds its head |
| Engine.IntrHash.PushItem | intrhash/intrhash.h:350-353 | links an unlinked node at a position of its own bucket; the chain gains the node there, and the order gains it between the nodes before and after that position |
| Engine.IntrHash.PopItem | intrhash/intrhash.h:355-360 | unlinks the node at a position; its link becomes null, and the chain and the order lose exactly that node |
| Threads.PushThreaded | intrhash/intrhash.h:350-353 | writing the two cells `push_item_` writes keeps the slots and links consistent with the chain that has the node inserted |
| Threads.PopThreaded | intrhash/intrhash.h:355-360 | writing the two cells `pop_item_` writes keeps the slots and links consistent with the chain that has the node removed |
| Threads.LinkedIff | intrhash/intrhash.h:212-214 | a node's link is non-null exactly when the node is in the iteration order |
| Engine.IntrHash.Linked | intrhash/intrhash.h:212-214 | `linked()` is true exactly when the node is in the iteration order |
| Engine.IntrHash.OrderFacts | intrhash/intrhash.h:478-480 | the iteration order has no repeats, holds exactly the nodes whose links are non-null, and only arena nodes |
| Threads.FlatDistinctFrom | intrhash/intrhash.h:478-480 | no node appears twice in the chains from any bucket on |
| Threads.CountInHome | intrhash/intrhash.h:382-385 | every node with key `k` is in the chain `k` hashes to, so counting that chain counts the table |
| Engine.IntrHash.OccInBase | intrhash/intrhash.h:382-385 | the count of key `k` in the table equals its count in the base bucket of `k` |
| Engine.IntrHash.BaseIndex | intrhash/intrhash.h:382-385 | `base_ctx_` is a real bucket, below the sentinel |
| Threads.FlatGroupedFrom | intrhash/intrhash.h:420-435 | if every chain keeps equal keys together, so does the whole iteration order |
| Engine.IntrHash.OrderGrouped | intrhash/intrhash.h:420-435 | in the iteration order, the nodes of one key are consecutive |
| Engine.IntrHash.FindCtx | intrhash/intrhash.h:397-408 | stops at the first node of the base bucket with the key, or at the chain's end; no earlier node has the key; found exactly when it stopped on a node |
| Engine.IntrHash.Sentinel | intrhash/intrhash.h:530-532 | `end()` is null |
| Engine.IntrHash.Begin | intrhash/intrhash.h:526-528 | `begin()` is the first node of the order, or `end()` when the table is empty |
| Engine.IntrHash.Successor | intrhash/intrhash.h:478-480 | `next()` from the node at index `k` of the order yields the node at `k + 1`, or `end()` after the last |
| Engine.IntrHash.Walk | intrhash/intrhash.h:526-532 | iterating from `begin()` until `end()` visits exactly the iteration order; with `OrderFacts`, every linked node once |
| Engine.IntrHash.Find | intrhash/intrhash.h:589-593 | `end()` exactly when no linked node has the key; otherwise the first node of the iteration order with the key |
| Engine.IntrHash.FindPtr | intrhash/intrhash.h:601-605 | null exactly when no linked node has the key; otherwise the first node of the iteration order with the key |
| Engine.IntrHash.FoundFirst | intrhash/intrhash.h:397-408 | the node `find_ctx_` stops on is the first node of the iteration order with the key |
| Engine.IntrHash.Has | intrhash/intrhash.h:613-616 | true exactly when some linked node has the key |
| Engine.IntrHash.SkipRun | intrhash/intrhash.h:636-641 | from the first node with the key, walks over the whole run with that key and stops at the first node of another key or the chain's end; returns the run's length |
| Engine.IntrHash.Count | intrhash/intrhash.h:628-644 | the number of linked nodes with the key |
| Chains.RunCount | intrhash/intrhash.h:628-644 | in a grouped chain, the run that starts at the first node with `k` holds every node with `k` |
| Engine.IntrHash.EqualRange | intrhash/intrhash.h:420-435 | `(end(), end())` when the key is absent; otherwise the first bound is the first node with the key and the second is the node after exactly `Occ(key)` nodes, all with the key |
| Engine.IntrHash.RunBounds | intrhash/intrhash.h:427-434 | the run found in the base bucket is a run of the iteration order of length `Occ(key)` |
| Engine.IntrHash.RunInOrder | intrhash/intrhash.h:427-434 | a run of a chain sits at index `\|Pre\|` of the order, and the second bound is what follows it |
| Engine.IntrHash.Size | intrhash/intrhash.h:647-649 | `size()` is the number of linked nodes |
| Engine.IntrHash.Empty | intrhash/intrhash.h:651-653 | `empty()` exactly when no node is linked |
| Engine.IntrHash.constructor | intrhash/intrhash.h:769-773 | a fresh table with `BucketsCount(n)` empty buckets, so `begin() == end()` |
| Engine.IntrHash.NewNode | intrhash/nodeallc.h:29-38 | a new node joins the arena with a null link; nothing is linked or counted differently |
| Engine.IntrHash.PushAt | intrhash/intrhash.h:656-661 | linking at the context `find_ctx_` returned inserts the node into the order before the first node with its key, or at the end of its bucket, and adds one to the count of its key |
| Chains.GroupedInsert | intrhash/intrhash.h:656-661 | inserting a node before the first node with its key, or at the end of a chain without its key, keeps the chain grouped |
| Chains.CountKeyInsert | intrhash/intrhash.h:656-661 | inserting a node adds one to the count of its own key and leaves every other count unchanged |
| Engine.IntrHash.PushNoResize | intrhash/intrhash.h:656-661 | returns the pushed node; `size()` grows by one; no earlier node of the order has its key, and the next one does when the key was present; when the key was absent, the node is appended to the end of its bucket's chain and every other chain is unchanged; only its key's count grows |
| Engine.IntrHash.Push | intrhash/intrhash.h:663-666 | the same insertion after a resize that keeps the linked nodes, placed in the chains the resize left (`grown`): before the first node with its key, or at the end of its bucket's chain when the key was absent; afterwards `size()` is at most the bucket count, unless the bucket count is the largest prime |
| Engine.IntrHash.LoadAfterResize | intrhash/intrhash.h:663-666 | after `resize(n)`, `n` is at most the bucket count, unless that count is the largest prime |
| Engine.IntrHash.Reserve | intrhash/intrhash.h:664 | `resize(nitems_ + 1)` keeps the same nodes linked, so the node to push stays unlinked and every key keeps its count; one more node then fits unless the bucket count is the largest prime |
| Engine.IntrHash.FindOrPushNoResize | intrhash/intrhash.h:741-752 | when the key is present, nothing changes and the first node with the key is returned with `false`; otherwise the one generated node is linked at the end of the key's chain, every other chain is unchanged, and it is returned with `true` |
| Engine.IntrHash.FindOrPush | intrhash/intrhash.h:754-758 | the same after a resize: inserted exactly when the key was absent; the resized chains (`grown`) hold the old nodes; a found key leaves them as they are and the result is the first node of the order with the key (position `p`), and an inserted node is appended to the end of the key's chain; the key count grows by one exactly on insertion |
| Engine.IntrHash.Search | intrhash/intrhash.h:669-675 | walks the base bucket of the node; found exactly when the node is linked, and then the context addresses it |
| Engine.IntrHash.PopAt | intrhash/intrhash.h:671-672 | `--nitems_` and `pop_item_` at a found position keep the invariant; the node's link is null |
| Chains.GroupedRemove | intrhash/intrhash.h:355-360 | removing a node keeps a chain grouped |
| Chains.CountKeyDelete | intrhash/intrhash.h:668-677 | removing one node takes one off the count of its key only |
| Engine.IntrHash.Pop | intrhash/intrhash.h:668-677 | null and no change exactly when the node is not linked; otherwise returns it, removes exactly it from the order, nulls its link and decrements `size()` |
| Engine.IntrHash.PopIter | intrhash/intrhash.h:679-681 | popping the node an iterator designates removes exactly that node |
| Engine.IntrHash.PopOne | intrhash/intrhash.h:712-722 | null and no change exactly when the key is absent; otherwise removes the first node of the order with the key and returns it |
| Engine.IntrHash.PopAll | intrhash/intrhash.h:724-734 | removes the contiguous run of the key, and returns it in order as the callback would see it; `size()` falls by its length and the key's count becomes 0 |
| Engine.IntrHash.PopRange | intrhash/intrhash.h:683-705 | nothing happens when `first` is not linked; otherwise removes the nodes of the order from `first` up to `last`, or to the end, crossing buckets; `size()` falls by the number removed and each removed link is null |
| Engine.IntrHash.PopFrom | intrhash/intrhash.h:686-701 | the loop from a found `first`: what it removes is a slice of the order ending at `last` or at the end |
| Engine.IntrHash.PopSpan | intrhash/intrhash.h:689-701 | the do-while of the range pop keeps the removed nodes a prefix of the rest of the order, none of them `last` |
| Engine.IntrHash.Decompose | intrhash/intrhash.h:551-563 | hands out every linked node in iteration order, leaves `size()` 0 and every link null, and keeps the bucket array |
| Engine.IntrHash.DrainStep | intrhash/intrhash.h:554-561 | one round of the drain loop pops the next node or moves to the next bucket, keeping the drained nodes a prefix of the old order |
| Engine.IntrHash.RelinkGrouped | intrhash/intrhash.h:578-581 | relinking drained nodes at the heads of their new buckets finds the previous node of the same key at the head |
| Chains.GroupedCons | intrhash/intrhash.h:578-581 | linking at the head keeps a chain grouped when the head already has the node's key, or the chain does not have it |
| Engine.IntrHash.Relink | intrhash/intrhash.h:578-581 | linking the drained nodes one by one at the heads of their buckets links exactly those nodes and keeps every chain grouped |
| Engine.IntrHash.Rehash | intrhash/intrhash.h:573-584 | with a fresh array of `nb` buckets, the same nodes are linked and the table is valid under the new count |
| Engine.IntrHash.Resize | intrhash/intrhash.h:569-586 | rehashes to `BucketsCount(n)` exactly when `n` exceeds the bucket count and that count is larger; otherwise nothing changes; the node set and `size()` never change |
| Chains.CountKeyPerm | intrhash/intrhash.h:569-586 | key counts depend only on which nodes are linked, not their order |
| Engine.IntrHash.Clone | intrhash/intrhash.h:806-822 | same bucket count and `size()`; bucket `b` holds the copies of bucket `b` of the original in reverse order; each key has as many nodes; the entries equal the originals' entries passed through `gen`, as a multiset |
| Engine.IntrHash.CopyBuckets | intrhash/intrhash.h:813-821 | the outer loop copies bucket after bucket |
| Engine.IntrHash.CloneBucket | intrhash/intrhash.h:814-820 | the inner loop pushes the copy of each node of bucket `i` at the head of bucket `i` |
| Copies.CopiedAll | intrhash/intrhash.h:806-822 | a finished copy is a reversed copy, bucket by bucket, and is grouped; it links every node of its arena and carries the same key counts and entries |
| Copies.CopiedBucket | intrhash/intrhash.h:813-821 | one copied bucket mirrors its original, is grouped, and carries the same entries |
| Copies.CountedBucket | intrhash/intrhash.h:813-821 | one copied bucket has as many nodes of every key as its original |
| Copies.GroupedMirror | intrhash/intrhash.h:813-821 | a chain that carries the keys of a grouped chain, read backwards, is grouped |
| Copies.CountKeyMirror | intrhash/intrhash.h:813-821 | a chain that carries the keys of another chain, read backwards, has the same key counts |
| Copies.BagCopy | intrhash/intrhash.h:813-821 | the copies, in any order, carry what the originals carry through `gen` |
| Owning.OwnIntrHash.constructor | intrhash/intrhash.h:846-848 | an empty owning table sized for `n` |
| Owning.OwnIntrHash.Erase | intrhash/intrhash.h:864-871 | 1 exactly when the node was linked; the node is then removed and destroyed; otherwise 0 and no change |
| Owning.OwnIntrHash.EraseIter | intrhash/intrhash.h:873-875 | erasing through an iterator destroys exactly the node it designates and returns 1 |
| Owning.OwnIntrHash.EraseKey | intrhash/intrhash.h:877-885 | 1 exactly when the key was present; then the first node with the key is removed and destroyed and the count of the key falls by one |
| Owning.OwnIntrHash.EraseAll | intrhash/intrhash.h:887-892 | returns the previous count of the key; every node with the key is removed and destroyed |
| Owning.OwnIntrHash.Clear | intrhash/intrhash.h:894-896 | every node is removed and destroyed |
| Ledger.NoneLinkedDrop | intrhash/intrhash.h:864-871 | destroying the node just unlinked leaves no destroyed node linked |
| Ledger.NoneLinkedCut | intrhash/intrhash.h:887-892 | destroying a run just unlinked leaves no destroyed node linked |
| Ledger.AccountedGrow | intrhash/hashmap.h:82-84 | linking the node just allocated keeps every allocated node linked or deleted, and not both |
| Ledger.AccountedPerm | intrhash/hashmap.h:82-84 | relinking the same nodes in a new order keeps every node accounted for |
| Ledger.AccountedDrop | intrhash/hashmap.h:95-103 | deleting the node just unlinked keeps every node accounted for |
| Ledger.AccountedCut | intrhash/hashmap.h:210-215 | deleting a run just unlinked keeps every node accounted for |
| Ledger.AccountedErase | intrhash/hashmap.h:210-215 | deleting the run `pop_all` unlinked keeps every node accounted for; none of its nodes had been deleted, and the nodes still linked plus the run are the nodes linked before |
| Ledger.AccountedClear | intrhash/hashmap.h:105-107 | deleting every node after a drain keeps every node accounted for |
| HashMap.Map.constructor | intrhash/hashmap.h:118-120 | an empty map sized for `n` |
| HashMap.Map.Copy | intrhash/hashmap.h:133-136 | same size, same count per key, and the same multiset of (key, value) pairs |
| HashMap.Map.Insert | intrhash/hashmap.h:82-84 | inserted exactly when the key was absent; a present key keeps its entry, so the first insert wins; `size()` grows by one exactly on insertion; afterwards the key occurs once |
| HashMap.Map.Index | intrhash/hashmap.h:110-113 | the node of the key; an absent key is first linked with the default value and `size()` grows by one, otherwise `size()` is unchanged |
| HashMap.Map.EraseIter | intrhash/hashmap.h:86-93 | removes and deletes exactly the designated entry, returns 1, and its key is then absent |
| HashMap.Map.EraseKey | intrhash/hashmap.h:95-103 | returns the previous count of the key, 0 or 1; 0 leaves the map unchanged; 1 deletes the node of the key |
| HashMap.Map.Clear | intrhash/hashmap.h:105-107 | every node is removed and deleted |
| HashMap.MultiMap.constructor | intrhash/hashmap.h:224-226 | an empty multimap sized for `n` |
| HashMap.MultiMap.Copy | intrhash/hashmap.h:239-242 | same size, same count per key, and the same multiset of (key, value) pairs |
| HashMap.MultiMap.Insert | intrhash/hashmap.h:197-199 | always links the new entry; `size()` and the key's count each grow by one |
| HashMap.MultiMap.EraseIter | intrhash/hashmap.h:201-208 | removes and deletes exactly the designated entry and returns 1 |
| HashMap.MultiMap.EraseKey | intrhash/hashmap.h:210-215 | returns the previous count of the key; the nodes removed all hold the key, were not yet deleted, and are exactly the nodes deleted; every other node stays linked; afterwards the key's count is 0 and the other keys are untouched |
| HashMap.MultiMap.Clear | intrhash/hashmap.h:217-219 | every node is removed and deleted |
| HashSet.Set.constructor | intrhash/hashset.h:110-112 | an empty set sized for `n` |
| HashSet.Set.Copy | intrhash/hashset.h:125-128 | same size and the same multiset of values |
| HashSet.Set.Insert | intrhash/hashset.h:80-82 | inserted exactly when the value was absent, and then `size()` grows by one; otherwise nothing is linked and `size()` is unchanged |
| HashSet.Set.EraseIter | intrhash/hashset.h:84-91 | removes and deletes exactly the designated value and returns 1 |
| HashSet.Set.EraseKey | intrhash/hashset.h:93-101 | returns 1 and deletes the value when present, otherwise 0 and no change |
| HashSet.Set.Clear | intrhash/hashset.h:103-105 | every node is removed and deleted |
| HashSet.MultiSet.constructor | intrhash/hashset.h:216-218 | an empty multiset sized for `n` |
| HashSet.MultiSet.Copy | intrhash/hashset.h:235-238 | same size and the same multiset of values |
| HashSet.MultiSet.Insert | intrhash/hashset.h:189-191 | always links the new value; `size()` and its count each grow by one |
| HashSet.MultiSet.EraseIter | intrhash/hashset.h:193-200 | removes and deletes exactly the designated value and returns 1 |
| HashSet.MultiSet.EraseKey | intrhash/hashset.h:202-207 | returns the previous count of the value; the nodes removed all hold the value, were not yet deleted, and are exactly the nodes deleted; every other node stays linked; afterwards the value's count is 0 |
| HashSet.MultiSet.Clear | intrhash/hashset.h:209-211 | every node is removed and deleted |

## Defects in the source, modelled as intended

Each of these keeps the code from compiling. The model implements what was
evidently meant.

- `ownintrhash_t::erase(const K&)` (intrhash/intrhash.h:877-885) calls
  `this->pop(key)`, but that overload takes a node pointer.
  `Owning.OwnIntrHash.EraseKey` uses `pop_one`.
- `ownintrhash_t::erase(item_type*)` (intrhash/intrhash.h:864-871) calls an
  unqualified `pop`, which a dependent base hides. `Owning.OwnIntrHash.Erase`
  uses the base's `pop`.
- intrhash/hashset.h:38 names the undefined `opts_t`; the set policy `ops` is
  meant.
- intrhash/hashset.h:151 defaults to the undefined `common_intrhash_ops`;
  `generic_intrhash_ops` is meant. `equal_to` is modelled as `==`.
- `erase(iterator)` of the multimap (intrhash/hashmap.h:202-203) calls both
  `pop` and `delete_node` without `this->`; that of the set
  (intrhash/hashset.h:85-86) and of the multiset (intrhash/hashset.h:194-195)
  calls `pop` without it. The model uses the base's members, as the map's own
  `erase(iterator)` does.

## Left out

- The hash function and `equal_to`: the hash is a `K -> nat` value fixed at
  construction, and key equality is `==`. These are the generic policy's
  `std::hash` and `operator==`.
- Engine.IntrHash.Relative: `ctx_relative_` (intrhash/intrhash.h:345-348) is
  this key comparison and nothing more, so it has no row of its own. What the
  lookups conclude from it is stated by FindCtx, SkipRun and FoundFirst.
- Engine.IntrHash.IsBucket: `ctx_bucket_` is a test of the `Link`
  constructor. Its meaning at a position is stated by BucketAtPos.
- Pointers and bit-stealing: a node is an arena index. A bucket slot or link
  holds a `Link` datatype instead of a tagged pointer.
- The allocator and `oneshot_vector_t`: the bucket storage is a fresh Dafny
  array.
- Node allocation: `new_node` is modelled by `NewNode`, which appends to the
  arena. `delete_node` and `D::destroy` are modelled by adding the node to the
  ghost set `freed`. An arena index is never reused.
- Exceptions, allocation failure and `noexcept`: these are not modelled.
- Callbacks: `decompose`, `pop_all` and the range `pop` return the sequence
  of nodes they hand to the callback, in the order the callback would see
  them. The owning table and the containers then destroy those nodes.
- `gen` in `find_or_push`: it becomes the entry of the node it would
  construct, because the source calls it only when it links a new node.
- `gen` in the clone constructor: it becomes a function on entries. It must
  keep the key, because the copy is linked in the bucket of its original.
  The containers pass the identity.
- Engine.IntrHash.Resize: the source pushes each node into the new array
  while `decompose` pops it. The model drains first and then relinks in the
  same order. The final state is the same, since each callback writes only
  the new array and the node just popped.
- Engine.IntrHash.PopIter, HashMap.Map.EraseIter, HashMap.MultiMap.EraseIter,
  HashSet.Set.EraseIter, HashSet.MultiSet.EraseIter and
  Owning.OwnIntrHash.EraseIter: these require a dereferenceable iterator,
  designated by its index in the order. The branch where `pop` returns null
  after an iterator is passed is therefore not modelled. Passing `end()` would
  dereference null in the source.
- HashMap.Map.Index: it returns the node that holds the key, not a reference
  to its value. Writes through the reference `operator[]` returns are not
  modelled.
- `operator*` and `operator->` of the iterator: these are `entries[n]` of the
  designated node, and the model keeps the entries of linked nodes fixed.
  Only the sets' `const value_` makes them immutable in the source. For the
  map and the multimap, the iterator hands out a mutable
  `std::pair<const K, T>&`, so writes to `second` through `operator*` and
  `operator->` can change a linked node's mapped value. Like writes through
  the reference `operator[]` returns, these are not modelled.
- The const iterator, `cbegin`/`cend` and the const overloads of the lookups:
  they behave like the non-const ones.
- Move construction, move assignment, `swap`, copy assignment by
  copy-and-swap, and the destructors (which call `decompose` or `clear`):
  these are not modelled.
- Integer width: counts and bucket indices are unbounded. The model's
  `BucketsCount` covers requests above the largest prime, but `size_t`
  wrap-around in `nitems_ + 1` is not modelled.
- Key and value types: they must not be reference types (`!new`). A rule
  such as "`gen` keeps the key" must then keep holding while the heap
  changes.
