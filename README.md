# c_data_structures in Dafny

This project models the container library in `data_structures/src` of
c_data_structures and proves what its operations promise. One Dafny module
covers each C source file:

- `Utils`: `lu_log_2`.
- `Items`: the `item_t` key/value pair.
- `LinkedLists`: the circular doubly linked ring with a single `join` pointer.
- `Lists`: the dynamic array `list_t`.
- `ListExtended`: copy, map, splice, concat, reduce, string rendering, the ping-pong merge sort and unique.
- `Dicts`: the chained hash map `dict_t` and its bucket helpers.
- `DictExtended`: key and value projections, copies and `{k:v}` rendering.
- `Sets` and `SetExtended`: the set over a dict and the set algebra.
- `Str`: splice, join, split, splitlines, replace and strip.
- `Heaps`: the Fibonacci heap.

Two small modules hold shared material. `Wrappers` has `Option`. `Order`
states the comparator contract: `compare(a, b) > 0` means that `a` orders
before `b`.

The form of each module follows the C code.

- Objects whose fields change in place are classes with `modifies` clauses:
  `Item`, `Link`, `LinkedList`, `List`, `Dict`, `Set` and `Heap`.
- Buffers that are shifted or merged in place are arrays: the list buffer, and
  the `L`/`W` pair of the merge sort.
- Loops are `while`/`for` loops with invariants. Each loop is proved against a
  specification function, for example `Str.Tokens`, `ListExtended.SortSpec`,
  `Dicts.Flatten` and `Heaps.Iteration`.
- Lists that a routine builds and hands back are sequences. This covers
  `dict_items`, `dict_keys`, `set_to_list`, `str_split`'s result and the heap
  iterator.

How the C concepts are represented:

- A NULL entry of a fresh `list_create` buffer is the list's `nil` constant.
- `dict_get`'s NULL for "absent" is `None`.
- Key equality is Dafny equality and the hash is a function `K -> nat`.
- A C string is a `seq<char>` without its terminating NUL.

The heap is a forest of `Tree` values. Each tree holds its item, mark, degree
and children, and children appear in the order of their ring read from
`join`. Node identity, i.e. the `heap_node_t *` that decrease-key takes, is a
`NodeRef` object. The parent pointer and `parent_children_link` are implicit
in where a tree sits. `min` is the index of the minimum root.

The heap model follows the code where the code differs from the textbook:

- `heap_decrease_key` reads `N->parent` after `_heap_cut` has cleared it. The
  cascading loop therefore never runs, and the model performs at most one cut
  per decrease.
- `_heap_merge` keeps `N1` as the parent on ties.
- `_heap_update_min` moves `min` only on a strictly smaller key.
- `heap_meld` keeps `H1`'s minimum unless `H2`'s key is strictly smaller.

## Model

| member | source | states |
|---|---|---|
| Utils.Log2 | data_structures/src/utils.c:9-17 | requires X != 0; the shifting loop returns the r with 2^r <= X < 2^(r+1) |
| Utils.FloorLog2Bounds | data_structures/src/utils.c:9-17 | floor log2 of X >= 1 satisfies 2^r <= X < 2^(r+1) |
| Utils.FloorLog2Unique | data_structures/src/utils.c:9-17 | only one r satisfies 2^r <= X < 2^(r+1), so the result is determined |
| Utils.FloorLog2Double | data_structures/src/utils.test.c:6-23 | lu_log_2(1) == 0 and lu_log_2(2X) == lu_log_2(X) + 1 |
| Utils.Pow2Double | data_structures/src/list.c:35-37 | doubling a power of two gives a power of two |
| Items.Item.constructor | data_structures/src/item.c:11-16 | after item_create(k, v) the key reads k and the value reads v |
| Items.Item.SetKey | data_structures/src/item.c:46-50 | the key becomes k and the value is unchanged |
| Items.Item.SetValue | data_structures/src/item.c:52-56 | the value becomes v and the key is unchanged |
| LinkedLists.LinkedList.constructor | data_structures/src/linked_list.c:18-24 | a new ring has no links and join == NULL |
| LinkedLists.LinkedList.FromRing | data_structures/src/linked_list.c:139-155 | a fresh header over an existing ring read from j is a valid ring |
| LinkedLists.LinkedList.IsEmpty | data_structures/src/linked_list.c:32-34 | empty exactly when the ring has no links |
| LinkedLists.LinkedList.Len | data_structures/src/linked_list.c:36-53 | the counting walk from join returns the number of links |
| LinkedLists.LinkedList.String | data_structures/src/linked_list.c:55-94 | "->" followed by each entry string and "->", in order from join |
| LinkedLists.LinkedList.Push | data_structures/src/linked_list.c:96-112 | the fresh link holding e is added at the end of the sequence read from join; the ring stays well formed; the first push makes a self-loop |
| LinkedLists.LinkedList.Remove | data_structures/src/linked_list.c:115-133 | requires l in the ring; deletes exactly l, keeps the others in order and the ring well formed; join moves to l's successor if it was l; removing the only link empties the ring |
| LinkedLists.LinkedList.Combine | data_structures/src/linked_list.c:135-158 | the result reads LL1's links then LL2's, as a well-formed ring; two empty rings give an empty ring |
| LinkedLists.Unlink | data_structures/src/linked_list.c:124-127 | bypassing the k-th link of a ring of two or more leaves a well-formed ring of the others |
| LinkedLists.Splice | data_structures/src/linked_list.c:146-153 | the four pointer stores join two disjoint rings into one ring through a then b |
| LinkedLists.SuccessorDiffers | data_structures/src/linked_list.c:120-122 | in a ring of two or more no link is its own successor, so L->next == L exactly for the last link |
| Lists.CapacityUnique | data_structures/src/list.c:8-9 | each length has exactly one capacity satisfying 0 when empty, else a power of two with capacity/2 < len <= capacity |
| Lists.Pow2Below | data_structures/src/list.c:35-40 | a smaller power of two is at most half a larger one |
| Lists.CapacityFor | data_structures/src/list.c:29-40 | the doubling then halving loops end at a power of two that fits the new length |
| Lists.Reallocate | data_structures/src/list.c:42-53 | the fresh zeroed buffer holds the first min(old len, capacity) entries, NULL after them |
| Lists.List.Resize | data_structures/src/list.c:14-60 | the capacity invariant holds afterwards, len is the new length, the first min(old len, new len) entries are kept |
| Lists.List.constructor | data_structures/src/list.c:62-72 | list_create(n) has n entries, all NULL, and a fitting capacity |
| Lists.List.Len | data_structures/src/list.c:83-88 | the length of the contents |
| Lists.List.Get | data_structures/src/list.c:91-97 | requires i < len; the i-th entry |
| Lists.List.Set | data_structures/src/list.c:99-104 | requires i < len; only entry i changes |
| Lists.List.Push | data_structures/src/list.c:115-120 | the contents gain e at the end |
| Lists.List.Pop | data_structures/src/list.c:106-113 | requires len > 0; returns the last entry and drops it |
| Lists.List.Insert | data_structures/src/list.c:122-135 | requires i <= len; the contents become old[..i] + [e] + old[i..] |
| Lists.List.Remove | data_structures/src/list.c:137-152 | requires i < len; returns old[i] and the contents become old without index i |
| Lists.ShiftUp | data_structures/src/list.c:130-133 | slots i+1..n take the entries one below and nothing else changes |
| Lists.ShiftDown | data_structures/src/list.c:145-148 | slots i..n-2 take the entries one above and nothing else changes |
| Lists.PushPop | data_structures/src/list.test.c:53-92 | push then pop returns the pushed entry and restores the contents |
| ListExtended.Copy | data_structures/src/list_extended.c:55-66 | a fresh list with the same entries |
| ListExtended.Map | data_structures/src/list_extended.c:202-213 | a fresh list of the same length with M[i] == map(L[i]); list_deep_copy is the same loop |
| ListExtended.Splice | data_structures/src/list_extended.c:83-97 | requires start < len, end < len, start <= end; a fresh list holding L[start..end) |
| ListExtended.Concat | data_structures/src/list_extended.c:189-200 | a fresh list holding L1 ++ L2 |
| ListExtended.FoldLeftAppend | data_structures/src/list_extended.c:225-233 | folding over s + t is folding over t from the fold over s |
| ListExtended.Reduce | data_structures/src/list_extended.c:225-233 | combine applied to acc and the entries left to right |
| ListExtended.String | data_structures/src/list_extended.c:20-53 | "[" + comma-joined entry strings + "]", "[]" when empty |
| ListExtended.MergePermutation | data_structures/src/list_extended.c:106-139 | the merge of two ranges is a permutation of their union |
| ListExtended.MergeSorted | data_structures/src/list_extended.c:106-139 | under a total order the merge of two sorted ranges is sorted |
| ListExtended.MergeHead | data_structures/src/list_extended.c:120-137 | the merge starts with the head of one of its inputs |
| ListExtended.MergeTakeFirst | data_structures/src/list_extended.c:122-128 | taking from the first half exactly when compare > 0 advances the merge by one |
| ListExtended.MergeTakeSecond | data_structures/src/list_extended.c:129-136 | taking from the second half otherwise (ties included) advances the merge by one |
| ListExtended.Merge | data_structures/src/list_extended.c:106-139 | L[start..end) becomes the merge of W[start..pivot) and W[pivot..end); L outside the range is unchanged |
| ListExtended.SortRange | data_structures/src/list_extended.c:141-156 | the ping-pong recursion leaves the merge sort of the range in L and changes neither array outside it |
| ListExtended.SortPermutation | data_structures/src/list_extended.c:141-156 | the merge sort of s is a permutation of s |
| ListExtended.SortSorted | data_structures/src/list_extended.c:141-156 | under a total order the merge sort is sorted: compare(S[i], S[i+1]) >= 0 |
| ListExtended.Sort | data_structures/src/list_extended.c:158-166 | a fresh list that is the merge sort of the input, a permutation of it, sorted under a total order; the input is unchanged |
| ListExtended.KeepFirsts | data_structures/src/list_extended.c:174-182 | the loop keeps an entry exactly when it is first or does not compare equal to its predecessor |
| ListExtended.DedupStep | data_structures/src/list_extended.c:176-182 | one loop step of list_unique in terms of the deduplication function |
| ListExtended.DedupDistinctNeighbours | data_structures/src/list_extended.c:168-187 | no two adjacent kept entries compare equal |
| ListExtended.DedupSorted | data_structures/src/list_extended.c:168-187 | the kept entries of a sorted sequence are sorted |
| ListExtended.DedupCovers | data_structures/src/list_extended.c:168-187 | every input entry compares equal to some kept entry |
| ListExtended.Unique | data_structures/src/list_extended.c:168-187 | a fresh list holding the deduplicated sort of the input |
| ListExtended.UniqueDistinctNeighbours | data_structures/src/list_extended.c:168-187 | list_unique's output has no two adjacent entries that compare equal |
| ListExtended.UniqueSorted | data_structures/src/list_extended.c:168-187 | list_unique's output is sorted under a total order |
| ListExtended.UniqueCovers | data_structures/src/list_extended.c:168-187 | every input entry compares equal to some entry of list_unique's output |
| Str.Splice | data_structures/src/str.c:21-27 | the characters s[start..end), cut at the end of s like strncpy, of length end - start when end <= len |
| Str.JoinedSnoc | data_structures/src/str.c:44-50 | one more token extends the join by the delimiter (none before the first) and the token |
| Str.JoinedLength | data_structures/src/str.c:34-41 | the join of n >= 1 tokens has length sum of the token lengths + (n-1)·len(d) |
| Str.Join | data_structures/src/str.c:29-53 | the strncat loop builds the tokens interleaved with the delimiter |
| Str.FindFromSpec | data_structures/src/str.c:80-85 | strstr from p finds the leftmost match at or after p, or there is none |
| Str.SplitFromStep | data_structures/src/str.c:79-92 | the tokens from p are the piece up to the next match followed by the tokens after it |
| Str.SplitLoopStep | data_structures/src/str.c:79-92 | one round of the loop keeps "tokens so far ++ tokens from prev_index == all tokens" |
| Str.SplitAdvance | data_structures/src/str.c:79-92 | the loop state after one round from the state before it |
| Str.Split | data_structures/src/str.c:55-95 | the walk between leftmost matches returns the tokens: [] for "", [s] for an empty delimiter, else the pieces between matches |
| Str.JoinSplit | data_structures/src/str.c:74-95 | join(split(s, d), d) == s |
| Str.JoinSplitFrom | data_structures/src/str.c:74-95 | joining the tokens from p gives s[p..] |
| Str.NoTokenContainsDelimiter | data_structures/src/str.c:74-95 | no token of a non-empty delimiter's split contains it |
| Str.MatchInSlice | data_structures/src/str.c:80 | a match inside a slice is a match in the string |
| Str.NoTokenContainsDelimiterFrom | data_structures/src/str.c:74-95 | no token from p onward contains the delimiter |
| Str.SplitWithoutDelimiter | data_structures/src/str.c:79-92 | a non-empty s without d splits into [s] |
| Str.SplitLines | data_structures/src/str.c:97-101 | str_split(s, "\n"); its lines contain no newline and join back to s |
| Str.Replace | data_structures/src/str.c:103-120 | join(split(s, a), b); s unchanged when s or a is empty, when a does not occur, or when a == b |
| Str.LeadingEnd | data_structures/src/str.c:126-129 | the first non-space at or after p, all spaces before it |
| Str.TrailingStart | data_structures/src/str.c:130-133 | the start of the trailing run of spaces, never before start |
| Str.Strip | data_structures/src/str.c:122-137 | the two index loops return the stripped string |
| Str.StrippedIsSlice | data_structures/src/str.c:122-137 | the result is a contiguous slice of s whose first and last characters are not spaces |
| Str.StripAllSpace | data_structures/src/str.c:122-137 | an all-whitespace string strips to "" |
| Str.StripIdempotent | data_structures/src/str.c:122-137 | stripping twice is stripping once |
| Dicts.KeyIndexSpec | data_structures/src/dict.c:44-57 | the index found is that of the first item with key k, none when k is absent |
| Dicts.LookupAppend | data_structures/src/dict.c:261-279 | a lookup in a concatenation finds the first part's item first |
| Dicts.UniqueKeySetSize | data_structures/src/dict.c:261-279 | with unique keys the number of items is the number of distinct keys |
| Dicts.BucketItem | data_structures/src/dict.c:44-57 | the scan returns the first item whose key equals k, or none |
| Dicts.BucketGet | data_structures/src/dict.c:59-68 | the value stored under k, or none exactly when k is absent |
| Dicts.BucketSet | data_structures/src/dict.c:70-80 | k maps to v, other keys keep their lookups; the bucket grows by one exactly when k was absent; keys stay unique |
| Dicts.BucketDel | data_structures/src/dict.c:82-97 | returns k's item exactly when present and removes it; other keys keep their lookups; absent k changes nothing |
| Dicts.BucketIndex | data_structures/src/dict.c:123-135 | the bucket index is below the number of buckets (0 with one bucket, else hash % m) |
| Dicts.FindIsLookup | data_structures/src/dict.c:137-146 | when every item sits in its hash bucket and buckets have unique keys, keys are unique across the dict and dict_get agrees with a lookup in dict_items |
| Dicts.UpdateBucket | data_structures/src/dict.c:287-289 | replacing k's bucket by one that differs only at k keeps the placement and changes only k's lookup |
| Dicts.SetIn | data_structures/src/dict.c:287-289 | bucket_set into k's bucket: k maps to v, others unchanged, the placement is kept |
| Dicts.DelIn | data_structures/src/dict.c:299-302 | bucket_del in k's bucket: returns k's item if present, k becomes absent, others unchanged |
| Dicts.FlattenLoop | data_structures/src/dict.c:261-279 | dict_items' double loop returns the items in bucket order then insertion order |
| Dicts.Rehash | data_structures/src/dict.c:175-193 | the fresh buckets hold the first min(capacity, count) items, each in its hash bucket, with the same lookups |
| Dicts.Dict.constructor | data_structures/src/dict.c:207-216 | a new dict has len 0, no buckets and no keys |
| Dicts.Dict.Len | data_structures/src/dict.c:243-248 | len is the number of items in the buckets |
| Dicts.Dict.Items | data_structures/src/dict.c:261-279 | the items in bucket order, len of them, with unique keys and the dict's lookups |
| Dicts.Dict.Get | data_structures/src/dict.c:250-259 | the value under k, none when absent, including with zero buckets |
| Dicts.Dict.Resize | data_structures/src/dict.c:148-205 | afterwards len == 0 gives 0 buckets, else buckets/2 < len <= buckets; an unchanged capacity keeps the buckets, otherwise the items are rehashed with the same mapping |
| Dicts.Dict.Set | data_structures/src/dict.c:281-290 | k maps to v, other keys are unchanged, len grows by one exactly when k was absent |
| Dicts.Dict.Del | data_structures/src/dict.c:292-305 | returns k's item and decrements len when present; an absent key returns none and changes nothing; other keys unchanged |
| Dicts.DomainFacts | data_structures/src/dict.c:243-259 | len counts the keys and dict_get succeeds exactly for them |
| DictExtended.KeyList | data_structures/src/dict_extended.c:89-106 | the keys of dict_items in order; len of them, distinct, exactly the stored keys |
| DictExtended.ValueList | data_structures/src/dict_extended.c:112-129 | the values of dict_items in order; len of them, each the value stored under its item's key |
| DictExtended.LastLookupKeys | data_structures/src/dict_extended.c:164-171 | setting items one by one leaves a value exactly for the keys set |
| DictExtended.LastLookupUnique | data_structures/src/dict_extended.c:140-146 | with unique keys the last item set under a key is its only item |
| DictExtended.MappedLookup | data_structures/src/dict_extended.c:152-175 | an injective key copy keeps keys unique and carries each lookup over |
| DictExtended.SetEach | data_structures/src/dict_extended.c:140-146 | dict_set of each item in order into an empty dict: each key maps to its last item's value |
| DictExtended.DeepCopy | data_structures/src/dict_extended.c:152-175 | a fresh dict with the same hash in which every copied item is set, later items winning |
| DictExtended.DeepCopyMapping | data_structures/src/dict_extended.c:152-175 | with an injective key copy, key_copy(k) maps to value_copy(v) for each item (k, v) and len is kept |
| DictExtended.Copy | data_structures/src/dict_extended.c:131-150 | a fresh dict with the same hash, the same len and the same mapping |
| DictExtended.String | data_structures/src/dict_extended.c:30-83 | "{" + comma-separated "k:v" in items order + "}", "{}" when empty |
| Sets.Set.constructor | data_structures/src/set.c:16-23 | a new set over a fresh dict has no elements |
| Sets.Set.Len | data_structures/src/set.c:44-49 | the number of elements |
| Sets.Set.Includes | data_structures/src/set.c:51-56 | true exactly for stored elements |
| Sets.Set.ToList | data_structures/src/set.c:58-63 | the dict's keys: distinct, exactly the elements |
| Sets.Set.Add | data_structures/src/set.c:65-69 | e becomes an element; len grows only if it was absent |
| Sets.Set.Remove | data_structures/src/set.c:71-81 | e is no longer an element; returns it and decrements len when present, none otherwise |
| SetExtended.AddEach | data_structures/src/set_extended.c:120-132 | set_add of each entry adds exactly the entries |
| SetExtended.ListMembers | data_structures/src/set.c:58-63 | the entries of set_to_list are the elements |
| SetExtended.Union | data_structures/src/set_extended.c:55-78 | x is in the result exactly when x is in S1 or S2 |
| SetExtended.Intersection | data_structures/src/set_extended.c:80-98 | x is in the result exactly when x is in S1 and S2 |
| SetExtended.Difference | data_structures/src/set_extended.c:100-118 | x is in the result exactly when x is in S1 and not in S2 |
| SetExtended.FromList | data_structures/src/set_extended.c:120-132 | exactly the distinct list entries, as many as there are |
| SetExtended.Copy | data_structures/src/set_extended.c:134-142 | a fresh set with the same hash, elements and len |
| SetExtended.DeepCopy | data_structures/src/set_extended.c:144-154 | a fresh set holding the copy of every element |
| SetExtended.String | data_structures/src/set_extended.c:16-53 | "{" + comma-joined entry strings in set_to_list order + "}" |
| Heaps.OneItemPerNode | data_structures/src/heap.c:170-180 | with no node in two places, a node handle stands for a single item |
| Heaps.Locate | data_structures/src/heap.c:174-176 | the root whose tree holds node n, found exactly when n is in the forest |
| Heaps.NodeInIs | data_structures/src/heap.c:170-180 | the item found by handle is the item at that node |
| Heaps.Bound | data_structures/src/heap.c:22 | by heap order, a key no later than every root is no later than every node |
| Heaps.MinRootLeast | data_structures/src/heap.c:367-375 | the minimum root's key is no later than every key in the heap |
| Heaps.NextMinLeast | data_structures/src/heap.c:377-383 | offering a root moves min to it only on a strictly smaller key, and min stays least |
| Heaps.MergeSound | data_structures/src/heap.c:420-441 | when N2's key orders no earlier than N1's (ties included) N1 keeps its item and mark and its children gain N2 at the end, otherwise N2 does the same with N1; the result is heap-ordered, one degree higher, with both trees' items |
| Heaps.MergeUp | data_structures/src/heap.c:443-463 | merging into the degree-indexed scratch keeps at most one tree per degree, each at its degree's slot, with the same items plus the new tree's; the scratch never shrinks |
| Heaps.MergeUpStep | data_structures/src/heap.c:453-461 | one merge round of _heap_merge_up keeps its invariant |
| Heaps.MergeAll | data_structures/src/heap.c:520-525 | merging every root into an empty scratch keeps all items |
| Heaps.Collect | data_structures/src/heap.c:527-537 | the non-empty scratch slots in order form the new roots, of strictly increasing degree |
| Heaps.Consolidate | data_structures/src/heap.c:516-543 | the new roots are heap-ordered, hold the same items, and no two share a degree |
| Heaps.DecreaseInSound | data_structures/src/heap.c:398-418 | below the root: the tree keeps its root item and stays heap-ordered, its items change only by the node's key becoming k, a cut tree is the node's, unmarked and heap-ordered with key k, and without a cut the root's key orders no later than k |
| Heaps.DecreaseInShape | data_structures/src/heap.c:465-487 | with p the node's parent, the node is cut exactly when k orders strictly before p's key; without a cut only the node's key changes (Rekeyed); with a cut p's ring loses the node, p loses one degree and is marked, every other node keeps its key, mark, degree and children (Detached), and the cut tree is the node's subtree with key k and no mark: no cascade |
| Heaps.DecreaseRootSound | data_structures/src/heap.c:465-487 | decrease of a node under root t: t itself rekeyed, or DecreaseIn below it, with at most one cut |
| Heaps.DecreaseRootShape | data_structures/src/heap.c:465-476 | a root node is only rekeyed and never cut; a node below a root leaves the shape DecreaseInShape states |
| Heaps.DecreaseKeyOk | data_structures/src/heap.c:465-487 | the new forest is a valid heap with the item rekeyed and a min no later than k |
| Heaps.UnmarkedNodes | data_structures/src/heap.c:412 | clearing the marks of cut children keeps their items |
| Heaps.UnmarkedForest | data_structures/src/heap.c:412 | clearing marks keeps the trees heap-ordered |
| Heaps.CutChildren | data_structures/src/heap.c:500-506 | cutting every child of the minimum appends them, unmarked, to the roots |
| Heaps.RemoveRootForest | data_structures/src/heap.c:508 | removing the minimum root from the roots keeps the rest heap-ordered |
| Heaps.RemoveMinOk | data_structures/src/heap.c:500-511 | after promoting and removing, the items are the old ones less the minimum, and the minimum is no later than all of them |
| Heaps.ConsolidatedOk | data_structures/src/heap.c:539-550 | the consolidated roots with the recomputed min form a valid heap whose min item was in the heap |
| Heaps.InsertOk | data_structures/src/heap.c:385-395 | adding a degree-0 root keeps a valid heap of one more item; min moves to it only if the heap was empty or its key is strictly smaller |
| Heaps.Heap.constructor | data_structures/src/heap.c:279-295 | a new heap is empty: len 0, no roots, no min |
| Heaps.Heap.Of | data_structures/src/heap.c:563-581 | a fresh heap over given roots, len and min |
| Heaps.Heap.Len | data_structures/src/heap.c:304-308 | len counts the items; it is 0 exactly when there are no roots |
| Heaps.Heap.PeekMin | data_structures/src/heap.c:367-375 | NULL exactly when empty, else an item of the heap whose key is no later than every key |
| Heaps.PeekMinIsRoot | data_structures/src/heap.c:367-375 | peek-min returns the min root's item |
| Heaps.Heap.UpdateMin | data_structures/src/heap.c:377-383 | min becomes root i when there is none or the current min key orders strictly after k |
| Heaps.Heap.Insert | data_structures/src/heap.c:385-395 | len grows by one; a degree-0 unmarked root holding (k, v) is added after the old roots; peek-min moves to (k, v) only if empty or strictly smaller |
| Heaps.Heap.DecreaseKey | data_structures/src/heap.c:465-487 | requires the new key no later than the old; the new roots are the old ones with the node's root tree rewritten by DecreaseRoot, followed by the cut tree if there is one; the node's item is rekeyed to k, no other item changes, the heap stays valid and its min is no later than k |
| Heaps.Heap.Relink | data_structures/src/heap.c:408-415 | the rewritten root and the cut node, pushed at the end of the roots, form a valid heap |
| Heaps.Heap.DeleteMin | data_structures/src/heap.c:489-551 | empty: no change. Otherwise one minimum item is removed, len drops by one, other items are kept, the roots have distinct increasing degrees, and the next minimum is no earlier than the last |
| Heaps.Heap.RemoveMin | data_structures/src/heap.c:500-511 | the new roots are the old ones without the minimum, followed by the minimum's children unmarked (Promoted); the minimum's item is the only one gone, every remaining node orders no earlier than it, and no minimum is set |
| Heaps.Heap.Rebuild | data_structures/src/heap.c:516-550 | consolidation and min recomputation give a valid heap with the same items |
| Heaps.Heap.RecomputeMin | data_structures/src/heap.c:545-550 | the loop over the roots leaves min at a least root |
| Heaps.Heap.Iterator | data_structures/src/heap.c:342-350 | requires distinct values, as the helper asserts; the iterator lists (value, (key, node)) for every node in DFS pre-order, len of them |
| Heaps.IterateRing | data_structures/src/heap.c:310-340 | the ring walk with recursion into children yields the pre-order of the forest |
| Heaps.IterationAppend | data_structures/src/heap.c:323-339 | the iteration of consecutive rings is the concatenation of their iterations |
| Heaps.Meld | data_structures/src/heap.c:553-584 | len is len1 + len2, the roots are H1's then H2's, the items are both heaps' items; peek-min is H1's unless H2's key is strictly smaller |
| Heaps.MeldRoots | data_structures/src/heap.c:563-581 | the new heap over the combined roots with min chosen by the if-chain |
| Heaps.MeldOk | data_structures/src/heap.c:565-581 | combining two valid heaps with disjoint nodes gives a valid heap of both item sets |
| Heaps.MeldRoot | data_structures/src/heap.c:567-577 | the chosen min root carries H1's item unless H2's key is strictly smaller |

## Left out

- memory.c is not part of this model. Allocation is Dafny's `new` and `fresh`; the pointer bookkeeping and leak reports have no counterpart.
- list_conn.c, dict_conn.c, set_conn.c and heap_conn.c are not part of this model: their only content is reader/writer locking.
- compute_makefile.py, the test and perf files and example_app are not part of this model; the tests were read only as statements of the properties.
- heap_string, _print_heap_node and _print_indent are left out: they print pointer addresses into fixed buffers.
- The destroy and free routines (`*_destroy`, `*_total_destroy`, `heap_iterator_destroy`, `str_wrap`/`str_unwrap` boxing) only release memory and are left out.
- The amortised potential-function analysis in heap.c's comments is cost accounting and is not modelled.
- The cascading cut of heap_decrease_key is not modelled because it never runs: line 482 reads the parent that line 411 has cleared. At most one cut happens per call.
- Heaps.Consolidate: the scratch list of consolidation grows when a degree exceeds its `2*lu_log_2(len)+2` slots. The C code would fail list_get's assertion instead. The degree bound behind that size relies on cascading cuts and is not established.
- Heaps.Heap.Iterator: the value-keyed dict that the iterator uses to detect repeated values, with value_eq and value_hash, is replaced by a precondition that the values are pairwise distinct. The dict itself is destroyed on return and is not modelled.
- Heaps.Meld: it requires both heaps to be valid, to use the same comparator and to have disjoint nodes. It does not model that H1 and H2 share their nodes with the result afterwards.
- Heaps.Heap.DecreaseKey: `min` is a root index, so the model applies `_heap_update_min` to the node's position after the cut. In the C code min is pointed at the node just before the cut; the node is a root by the time anyone reads min.
- Node identity in the heap is a NodeRef object; `item_t` pointers shared between nodes and the iterator are modelled as values, so aliasing of items is not captured.
- Key and element equality is Dafny equality, and key_hash is a total function `K -> nat`. As a result, "set_from_list keeps the first instance of equal elements" has no content: equal elements are identical.
- dict values are never NULL: a `NULL` value would make dict_get report the key as absent. The model keeps values in `V` and absence in `Option`.
- size_t overflow of lengths, capacities and hashes is not modelled; integers are unbounded.
- ListExtended.KeepFirsts: `prev` is an Option, so only the first entry counts as having no predecessor. In the C code a NULL entry also makes `prev == NULL` true for the entry after it.
- list_for_each is not modelled: it only applies an effectful callback.
- list_deep_copy is the list_map loop with the copy function as the map: ListExtended.Map states it.
- The lists that dict_items, dict_keys, set_to_list, str_split and the heap iterator return are sequences, not `list_t` objects. Buckets are sequences too.
- The deep copies of dicts and sets take the copy functions as pure functions.
- The length pre-passes of str_join, dict_string and set_string only size buffers and are not modelled separately; the buffer growth of list_string is not modelled.
- str.c line 67 allocates one byte too few for the copy of s (strlcpy then writes n+1 bytes). The model returns the intended copy of s.
- Str.Splice requires start <= end and start <= the length of s. The C code computes `end - start` as a size_t and reads `s + start` without a check.
- An empty list has no buffer in C; the model uses a buffer of length 0.
- list_reduce's accumulator is an object that combine updates in place; the model folds a pure combine function (FoldLeft).
- The hash and equality callbacks are fixed fields (`const`) of the Dict and Set objects.
- isspace is the C-locale whitespace set; locales are not modelled.
