# Ordered int-keyed maps: skip list, sorted linked list, BST and treap

This project models four containers from the `data-structures` repository in Dafny and proves them
correct. All four map `int` keys to values of a generic type `T` and offer `insert`, `erase` and
`find`. The skip list and the tree implement the interface of `map.hpp`. The linked list has the
same operations without deriving from it. The treap's `insert` has a different parameter type, so it
hides the interface's `insert` rather than overriding it (treap.hpp:34):

- a skip list with a per-level update vector, and a deterministic `reconfigure`;
- a sorted singly linked list, with merge-union (`operator+`) and difference (`operator-`);
- an unbalanced binary search tree;
- a treap, which is that tree kept in max-heap order on a per-node priority.

Each container has an abstract view. The view is `MapOf` of a sorted (key, value) sequence from
module `SortedItems`, a `map<int, T>`. Against that view:

- `insert(k, v)` yields `m[k := v]`;
- `erase(k)` yields `m - {k}`;
- `find(k)` reports `k in m` and, on a hit, `m[k]`.

Every operation is also tied to a reference function on the sorted sequence:

- `InsertSorted` for insert;
- `EraseSorted` for erase;
- `Lookup` for find;
- `Merge` for union;
- `EraseAll` for difference.

The lemmas of `SortedItems` give these reference functions their map meaning.

## Structure

- `sorted_items.dfy` (`SortedItems`): sorted entry sequences, `MapOf`, the reference operations and
  their lemmas, and the split lemmas that a tree's in-order sequence `left + [root] + right` needs.
- `skip_levels.dfy` (`SkipLevels`): the skip list's link discipline on arena values.
  - `NextPos(h, i, s)` is the first level-0 position at or after `s` whose node rises above level `i`.
  - `Levels` says every link at every level goes to exactly that node, or to NIL or null past the end.
  - The file also holds the value-level lemmas for splice, unsplice, head growth and head shrinking.
- `skip_rebuild.dfy` (`SkipRebuild`): the level layout that `reconfigure` builds.
  - Round `j` (stride 2^j) promotes every position divisible by 2^j and links it 2^j further on.
  - The file also has the phase predicates of the trim and rebuild loops.
- `skip_list.dfy` (`SkipLists`): the skip list class.
  - Nodes live in an arena: index 0 is the head (key `INT_MIN`), index 1 is NIL (key `INT_MAX`), and `Null` (-1) is `nullptr`.
  - The fields are `key`, `value` and `forward`, plus the ghost order `list`, the per-node `height` and the entries `items`.
  - Every loop of the source is a `while` loop in a method of its own with a narrow `modifies` frame.
- `linked_list.dfy` (`LinkedLists`): the linked list class over an arena (`keys`, `vals`, `next`, `head`), with a ghost chain `list` and entries `items`.
- `binary_search_tree.dfy` (`BinarySearchTree`): `Tree<V>` as a datatype. Insert, erase and the rotations rebuild tree values, since ownership is strictly tree-shaped. Successor is a loop.
- `treap.dfy` (`Treaps`): a treap is a `Tree<Entry<T>>`, where `Entry` holds a value and a priority. This reuses find, the rotations, ordering and contents of the tree module, as the source does by inheritance.

Where the code and its documentation differ, the model follows the code:

- **Skip-list key precondition.** The model requires `k < INT_MAX` and allows `INT_MIN`. Only `INT_MAX` collides with a sentinel that the code compares against: the head's key is never compared. The documentation asks for keys strictly between the two.
- **`operator-`.** The code builds a `LinkedList<std::string>` result whatever `T` is (linked_list.hpp:203). The model is generic in `T`.
- **Treap rotations.** The unqualified `rotate_left` / `rotate_right` in `Treap::erase` are the tree's rotations.
- **Treap insert.** The treap model is `Treap::insert` and `Treap::erase` called on the treap itself. A call of `insert` through a `Map<T>&` would reach the tree's insert on treap nodes instead, and the model does not cover that dispatch.

## Model

| member | source | states |
|---|---|---|
| SkipLists.SkipList.constructor | skip_list.hpp:51-57 | the list starts empty and well formed, with `sz == 0` and the head holding the single level `[NIL]` |
| SkipLists.SkipList.HighestLevel | skip_list.hpp:43 | the head's top level links to NIL, and every node's height is at most that level (the head is strictly higher than any node) |
| SkipLists.SkipList.Size | skip_list.hpp:44 | `sz` is the number of keys in the map view |
| SkipLists.SkipList.Search | skip_list.hpp:69-82 | each `update[j]` is the head or a node with key `< k`, and its level-`j` link is null or a node with key `>= k`; the result is non-null iff `k` is present, and then it is the node of `k` |
| SkipLists.SkipList.Descend | skip_list.hpp:71-78 | from the top level down, `update[i]` is the last node reaching level `i` before the rank of `k` |
| SkipLists.SkipList.WalkLevel | skip_list.hpp:75-76 | the walk along level `i` passes only keys below `k` and stops where no node of level `i` lies before the rank of `k` |
| SkipLists.SkipList.Find | skip_list.hpp:85-95 | true with the stored value iff `k` is in the map; otherwise false with the caller's value untouched |
| SkipLists.SkipList.Insert | skip_list.hpp:98-124 | the entries become `InsertSorted(old, k, v)` and the map `old[k := v]`; an existing key changes no link, no height and not `sz`; a new key's node sits at the rank of `k` with `level` levels, `sz` grows by one and the head has `max(old levels, level + 1)` levels |
| SkipLists.SkipList.InsertNode | skip_list.hpp:107-123 | a new node of `level` levels is inserted at the rank of `k` in the level-0 order, heights and entries, and the structure stays well formed |
| SkipLists.SkipList.Attach | skip_list.hpp:111-122 | the new node is appended to the arena with key `k` and value `v`, given `level` null links with the head grown over it, and spliced in after the update nodes |
| SkipLists.SkipList.ExtendUpdate | skip_list.hpp:108-110 | the update vector is extended with the head up to `level`, confirming that the head is the last node before `k` on every new level |
| SkipLists.SkipList.Grow | skip_list.hpp:112-117 | the node gets `level` null links, and the head grows by one NIL level whenever it is no higher than the node |
| SkipLists.SkipList.Splice | skip_list.hpp:118-122 | at each level `i < level` the node takes over `update[i]`'s link and `update[i]` then links to the node; nothing else changes |
| SkipLists.SkipList.Erase | skip_list.hpp:127-140 | the entries become `EraseSorted(old, k)` and the map `old - {k}`; an absent key changes nothing; a present key loses its position in the order and heights, `sz` drops by one, and the head has no empty top level left to drop |
| SkipLists.SkipList.EraseNode | skip_list.hpp:131-139 | the node at the rank of `k` leaves the order, heights and entries, `sz` drops by one, and the head is shrunk |
| SkipLists.SkipList.Unlink | skip_list.hpp:133-135 | after the unsplice and the release of the node, the structure is well formed for `sz - 1` with the node's position removed |
| SkipLists.SkipList.Unsplice | skip_list.hpp:133-134 | `update[i]` takes over the node's level-`i` link exactly at the levels that link to the node, which are the node's own levels |
| SkipLists.SkipList.TrimHead | skip_list.hpp:136-137 | the head becomes `Shrunk(head)`, the structure stays well formed, and nothing else changes |
| SkipLists.SkipList.Reconfigure | skip_list.hpp:161-194 | keys, values, `sz`, the level-0 order and the entries are unchanged, so `Find` answers as before; the heights become `RebuiltHeights(n, Rounds(sz))`; the head has `Rounds(sz) + 2` levels |
| SkipLists.SkipList.Trim | skip_list.hpp:164-169 | every node but NIL is cut back to its level-0 link |
| SkipLists.SkipList.RebuildLevels | skip_list.hpp:170-192 | after the loop over `step = 2, 4, 8, …` below `sz`, every position carries the links of `Rounds(sz)` rebuild rounds |
| SkipLists.SkipList.Rebuild | skip_list.hpp:172-191 | one round appends level `k` to every position divisible by `2^k`, linking it `2^k` positions on, or to null past NIL |
| SkipLists.SkipList.Advance | skip_list.hpp:178-184 | `x` moves `step` nodes along level 0, and `done` is set exactly when it runs out past NIL |
| SkipLists.SearchStep | skip_list.hpp:75-76 | one step right at level `i` lands on the next node of that level, and a key below `k` keeps it before the rank of `k` |
| SkipLists.SearchLanded | skip_list.hpp:79-81 | after the descent, the level-0 successor of the last node below `k` holds `k` iff `k` is in the map, and then it is the node at the rank of `k` |
| SkipLists.UpdMeaning | skip_list.hpp:77 | the recorded `update[j]` has key below `k` and a level-`j` link that is null or at or past `k` |
| SkipLists.OverwriteStep | skip_list.hpp:102-106 | overwriting the value at the node of `k` keeps the invariant and gives `InsertSorted` and `old[k := v]` |
| SkipLists.InsertStep | skip_list.hpp:111-123 | growing and splicing in a node of level `l` at the rank of `k` keeps the invariant with the order, heights and entries extended at that rank |
| SkipLists.EraseStep | skip_list.hpp:131-138 | unsplicing the node of `k` and dropping its value keeps the invariant with its position removed |
| SkipLists.ShrinkStep | skip_list.hpp:136-137 | popping the head's top level while the one below links to NIL keeps the invariant |
| SkipLists.ShrinkAsWritten | skip_list.hpp:136-137 | the unguarded shrink loop: when it finishes, the head's second-highest link is not NIL, and the head is a prefix of the original |
| SkipLists.Shrunk | skip_list.hpp:136-137 | the guarded shrink keeps at least one level, yields a prefix, and leaves no second-highest NIL link |
| SkipLists.ShrinkAgrees | skip_list.hpp:136-137 | while some node still reaches level 0, the loop as written and the guarded loop give the same head |
| SkipLists.ShrinkEmpty | skip_list.hpp:136-137 | once every head link is NIL (the last key erased), the loop as written reads before the start of the vector |
| SkipLists.ShrinkEmptyExample | skip_list.hpp:136-137 | on the head `[NIL, NIL]`, which inserting one key at level 1 and erasing it leaves, the loop as written reads before the start while the guarded one yields `[NIL]` |
| SkipLists.ReconfigureDone | skip_list.hpp:170-193 | after `k` rounds the head has `k + 1` levels, and adding the final NIL level restores the whole invariant with the heights `RebuiltHeights(n, k)` |
| SkipLevels.NextPos | skip_list.hpp:75-76 | the next position whose node rises above level `i`: none before it does, and it does |
| SkipLevels.UpdDominates | skip_list.hpp:73-77 | any node of level `j` before the rank of `k` lies at or before `update[j]` |
| SkipLevels.SpliceLevels | skip_list.hpp:118-122 | splicing a node of `l` levels after the update nodes keeps every level correctly linked over the extended order |
| SkipLevels.UnspliceLevels | skip_list.hpp:133-134 | bypassing the node at its own levels keeps every level correctly linked over the shortened order |
| SkipLevels.UnspliceCond | skip_list.hpp:133 | the loop guard `update[i]->forward[i] == x` holds exactly at the levels below the node's height |
| SkipLevels.GrowHead | skip_list.hpp:115-116 | extra NIL levels on the head keep every level correctly linked |
| SkipLevels.ShrinkHead | skip_list.hpp:136-137 | when the head's second-highest link is NIL, no node reaches its top level, and popping it keeps the levels linked |
| SkipRebuild.PromotedSpec | skip_list.hpp:170-191 | after `k` rounds, position `P` rises above level `j` iff `j == 0`, or `j <= k` and `2^j` divides `P` |
| SkipRebuild.BuiltStep | skip_list.hpp:185-191 | round `k` appends one link to exactly the positions divisible by `2^k` |
| SkipRebuild.Divides2Mod | skip_list.hpp:175-189 | the round predicate "`P` is a multiple of the stride `2^j`" holds iff `P % 2^j == 0` |
| SkipRebuild.RoundsSpec | skip_list.hpp:170 | round `j` runs iff `2^j < sz` |
| SkipRebuild.RoundsFrom | skip_list.hpp:170 | counting from round `k`, the loop runs up to round `r >= k - 1` with `2^(r + 1) >= sz`, and `2^r < sz` whenever it runs at all |
| SkipRebuild.RebuiltHeights | skip_list.hpp:170-191 | the height of each node after the rounds is one plus the number of rounds that promote its position |
| SkipRebuild.RebuiltHeightsSpec | skip_list.hpp:170-191 | the node at position `q + 1` reaches above level `j` iff `j == 0`, or `2^j < sz` and `2^j` divides `q + 1` |
| SkipRebuild.RebuiltLevels | skip_list.hpp:170-193 | the rebuilt links form correctly linked levels over those heights, with nulls allowed at chain ends |
| SkipRebuild.Built | skip_list.hpp:185-191 | the forward vector of a position after `k` rounds: one link per promoted level, each to the position `2^j` on, or null |
| LinkedLists.LinkedList.constructor | linked_list.hpp:28 | the list starts empty and well formed |
| LinkedLists.LinkedList.Copy | linked_list.hpp:63-67 | inserting the other list's pairs in iteration order reproduces its entry sequence and size |
| LinkedLists.LinkedList.Move | linked_list.hpp:69-74 | the new list takes over the other's entries and size; the other is left empty with `sz == 0` |
| LinkedLists.LinkedList.Size | linked_list.hpp:32 | `sz` is the number of keys in the map view |
| LinkedLists.LinkedList.Find | linked_list.hpp:89-104 | true with the stored value iff the key is present, else false with `value` untouched; the early exit at a greater key is sound |
| LinkedLists.LinkedList.HasAtRankAt | linked_list.hpp:92-102 | where the walk stops, the key is present iff the node there holds it |
| LinkedLists.LinkedList.Insert | linked_list.hpp:107-135 | the entries become `InsertSorted(old, key, value)` (so keys still ascend) and the map `old[key := value]`; `sz` is unchanged for an existing key and one larger otherwise |
| LinkedLists.LinkedList.Attach | linked_list.hpp:123-133 | a node with `key` and `value` is appended to the arena and linked in after `prev`, or at the head when `prev` is null |
| LinkedLists.LinkedList.Walk | linked_list.hpp:109-122 | the walk passes exactly the keys below `key`; `prev` trails it; `hit` holds iff the stop node holds `key` |
| LinkedLists.LinkedList.Link | linked_list.hpp:123-134 | a new node is spliced after `prev`, or at the head; the key was absent, the entries become `InsertSorted`, the map `old[key := value]`, and `sz` grows by one |
| LinkedLists.LinkedList.Erase | linked_list.hpp:138-159 | the entries become `EraseSorted(old, key)` and the map `old - {key}`; `sz` drops by one for a present key; an absent key changes nothing |
| LinkedLists.LinkedList.Unlink | linked_list.hpp:144-152 | the node at position `q` is bypassed by `prev` or by `head`, leaving the chain without it and `sz` one smaller |
| LinkedLists.LinkedList.Elements | linked_list.hpp:41-58 | iteration from `begin()` to `end()` yields the entries in ascending key order, whose map is the list's contents |
| LinkedLists.LinkedList.Union | linked_list.hpp:163-198 | the result holds `Merge(lhs, rhs)`: the sorted union whose map is `rhs + lhs` (the left value wins); neither operand changes |
| LinkedLists.LinkedList.MergeHeads | linked_list.hpp:168-186 | when one walk runs out, the result so far followed by the merge of the two remainders is the full merge, with the left entry kept on a tie |
| LinkedLists.LinkedList.MergeLeftRest | linked_list.hpp:187-191 | the rest of the left walk completes the merge |
| LinkedLists.LinkedList.MergeRightRest | linked_list.hpp:192-196 | the rest of the right walk completes the merge |
| LinkedLists.LinkedList.Difference | linked_list.hpp:201-207 | the result is a copy of this list with each key of `rhs` erased in order; its map is `lhs - rhs.Keys` |
| LinkedLists.OverwriteStep | linked_list.hpp:113-117 | overwriting a found key's value keeps the invariant and the size, and gives `InsertSorted` and `old[key := value]` |
| LinkedLists.SpliceStep | linked_list.hpp:123-134 | the splice before the first greater key keeps the chain, its ascending keys and the size count, and gives `InsertSorted` and `old[key := value]` |
| LinkedLists.UnlinkStep | linked_list.hpp:144-151 | bypassing the node of `key` keeps the invariant for `sz - 1`, and gives `EraseSorted` and `old - {key}` |
| LinkedLists.MissStep | linked_list.hpp:154-158 | a walk that stops at a greater key or at the end proves the key absent, and erase is then a no-op |
| LinkedLists.MergeTakeLeft | linked_list.hpp:170-174 | appending the left entry when its key is smaller keeps the merge invariant |
| LinkedLists.MergeTakeRight | linked_list.hpp:175-179 | appending the right entry when its key is smaller keeps the merge invariant |
| LinkedLists.MergeTakeBoth | linked_list.hpp:180-185 | on equal keys, appending the left entry and skipping the right keeps the merge invariant |
| SortedItems.InsertSortedView | linked_list.hpp:107-135 | ordered insertion keeps keys ascending, gives the map `m[k := v]`, and grows the length iff `k` was absent |
| SortedItems.EraseSortedView | linked_list.hpp:138-159 | ordered removal keeps keys ascending, gives `m - {k}`, and shrinks the length iff `k` was present |
| SortedItems.LookupView | linked_list.hpp:89-104 | the early-exit lookup on sorted entries returns `Some(m[k])` iff `k in m`, else `None` |
| SortedItems.InsertAt | linked_list.hpp:111-133 | ordered insertion replaces the entry at the rank of `k`, or splices `(k, v)` in at that rank |
| SortedItems.EraseAt | linked_list.hpp:142-157 | ordered removal drops the entry at the rank of `k` when it holds `k`, else changes nothing |
| SortedItems.EraseCases | linked_list.hpp:142-157 | a present key is removed at its rank, with the map losing exactly that key; an absent key changes nothing |
| SortedItems.MergeView | linked_list.hpp:163-198 | the merge of two sorted sequences is sorted and stands for `MapOf(b) + MapOf(a)` |
| SortedItems.MergeSorted | linked_list.hpp:168-196 | the merge of two sorted sequences is sorted |
| SortedItems.MergeMap | linked_list.hpp:168-196 | the merge stands for the union of the two maps, the left one winning |
| SortedItems.EraseAllView | linked_list.hpp:201-207 | erasing the keys of `t` one by one keeps keys ascending and gives `m - MapOf(t).Keys` |
| SortedItems.MapOfSize | linked_list.hpp:32 | a sorted sequence has as many entries as its map has keys |
| SortedItems.Rank | linked_list.hpp:111-122 | the number of leading entries below `k`: all before it are smaller, the one at it is not |
| SortedItems.SortedSplit | binary_search_tree.hpp:70-86 | `a + [x] + b` is sorted iff both parts are sorted, `a` lies below `x` and `b` above it |
| BinarySearchTree.Insert | binary_search_tree.hpp:70-86 | the branches of the code exactly: a null node becomes a new leaf, an equal key is overwritten, smaller keys go left; on any tree the key then finds `v` and the size grows by at most one; its meaning on ordered trees is `InsertInOrder` and `InsertView` |
| BinarySearchTree.Find | binary_search_tree.hpp:148-160 | the branches of the code exactly; on any tree a hit is an entry of the tree; its meaning on ordered trees is `FindInOrder` and `FindView` |
| BinarySearchTree.Erase | binary_search_tree.hpp:98-127 | the three removal cases of the code exactly, the two-children case by the successor; on any tree the size drops by at most one; its meaning on ordered trees is `EraseInOrder` and `EraseView` |
| BinarySearchTree.InsertOthers | binary_search_tree.hpp:70-86 | on any tree, insert leaves what every other key finds unchanged |
| BinarySearchTree.Leftmost | binary_search_tree.hpp:89-95 | the leftmost entry is the first entry in order |
| BinarySearchTree.Successor | binary_search_tree.hpp:89-95 | with a right child, the loop returns the leftmost node of the right subtree; it has no left child, holds the first in-order entry of that subtree, and in an ordered tree its key exceeds the node's key |
| BinarySearchTree.RotateLeft | binary_search_tree.hpp:130-136 | with a right child, the right child becomes the root; the in-order sequence is unchanged |
| BinarySearchTree.RotateRight | binary_search_tree.hpp:139-145 | with a left child, the left child becomes the root; the in-order sequence is unchanged |
| BinarySearchTree.RotationsView | binary_search_tree.hpp:130-145 | each rotation preserves BST ordering (both directions) and the contents |
| BinarySearchTree.OrderedNode | binary_search_tree.hpp:81-84 | a node is ordered iff both subtrees are, with everything in the left below its key and everything in the right above it |
| BinarySearchTree.InsertInOrder | binary_search_tree.hpp:70-86 | insert acts on the in-order sequence as `InsertSorted` |
| BinarySearchTree.InsertView | binary_search_tree.hpp:70-86 | on an ordered tree, insert keeps the ordering and gives `old[key := value]` |
| BinarySearchTree.InsertExisting | binary_search_tree.hpp:76-80 | inserting a present key keeps every node and key in place and the size, and every other key finds the same value as before, so only that node's value changes |
| BinarySearchTree.FindInOrder | binary_search_tree.hpp:148-160 | find acts on the in-order sequence as the early-exit `Lookup` |
| BinarySearchTree.FindView | binary_search_tree.hpp:148-160 | on an ordered tree, find gives the stored value iff the key is present |
| BinarySearchTree.EraseInOrder | binary_search_tree.hpp:98-127 | erase acts on the in-order sequence as `EraseSorted` |
| BinarySearchTree.EraseSuccessorCase | binary_search_tree.hpp:119-125 | with two children, copying the successor's pair into the node and erasing it from the right subtree leaves exactly the subtrees' entries |
| BinarySearchTree.EraseLeftmost | binary_search_tree.hpp:124 | erasing the leftmost key drops the first in-order entry |
| BinarySearchTree.EraseView | binary_search_tree.hpp:98-127 | on an ordered tree, erase keeps the ordering and removes exactly the key |
| BinarySearchTree.EraseAbsent | binary_search_tree.hpp:100-105 | erasing an absent key, down to a null node, leaves the tree unchanged |
| Treaps.TInsert | treap.hpp:39-63 | the branches of the code exactly: a new leaf with priority `p`, an overwrite keeping the priority, and the rotate-up on a strictly higher child; the result is never empty and grows by at most one node; its meaning is `TInsertInOrder`, `TInsertView` and `TInsertHeap` |
| Treaps.TErase | treap.hpp:66-101 | the branches of the code exactly, the two-children case rotating up the child of higher priority and following the key; the size drops by at most one; its meaning is `TEraseInOrder`, `TEraseView` and `TEraseHeap` |
| Treaps.TInsertInOrder | treap.hpp:39-63 | insert acts on the in-order sequence as `InsertSorted`, keeping an existing key's priority and giving a new key the priority `p` |
| Treaps.TInsertView | treap.hpp:39-63 | insert keeps BST ordering; the contents gain `key` with the new value, and the old priority, or `p` for the new leaf |
| Treaps.TInsertExisting | treap.hpp:45-49 | on a heap, inserting a present key performs no rotation and only overwrites its value |
| Treaps.TInsertHeap | treap.hpp:50-61 | insert with the rotate-up step keeps max-heap order, and raises no priority bound beyond `max(q, p)` |
| Treaps.TInsertHeapLeft | treap.hpp:50-55 | the left descent followed by the conditional right rotation keeps the heap and the bounds |
| Treaps.TInsertHeapRight | treap.hpp:56-61 | the right descent followed by the conditional left rotation keeps the heap and the bounds |
| Treaps.RiseLeftHeap | treap.hpp:53-54 | rotating the grown left child up when it outranks its parent keeps the heap |
| Treaps.RiseRightHeap | treap.hpp:59-60 | rotating the grown right child up when it outranks its parent keeps the heap |
| Treaps.TEraseInOrder | treap.hpp:66-101 | erase acts on the in-order sequence as `EraseSorted` |
| Treaps.TEraseLeftShape | treap.hpp:89-93 | the left rotation puts the key at the root of the new left subtree, which is smaller, and the erase continues there |
| Treaps.TEraseRightShape | treap.hpp:94-98 | the right rotation puts the key at the root of the new right subtree, which is smaller, and the erase continues there |
| Treaps.TEraseLeftCase | treap.hpp:89-93 | rotate-left then erase on the left leaves exactly the two subtrees' entries |
| Treaps.TEraseRightCase | treap.hpp:94-98 | rotate-right then erase on the right leaves exactly the two subtrees' entries |
| Treaps.TEraseView | treap.hpp:66-101 | erase keeps BST ordering and removes exactly the key from the contents and the value view |
| Treaps.TEraseAbsent | treap.hpp:68-73 | erasing an absent key changes nothing |
| Treaps.TEraseHeap | treap.hpp:66-101 | erase keeps max-heap order and never raises a priority bound |
| Treaps.TEraseHeapLeftCase | treap.hpp:89-93 | rotating up the higher-priority right child and erasing on the left keeps the heap |
| Treaps.TEraseHeapRightCase | treap.hpp:94-98 | rotating up the left child (priority not lower) and erasing on the right keeps the heap |
| Treaps.HeapAtMost | treap.hpp:15-23 | in a heap, no priority exceeds the root's |

## Left out

- `random_level` and its floating-point comparison against `probability` (skip_list.hpp:59-66) are replaced by a `level >= 1` parameter of `Insert`.
- The treap priority drawn from `rand()` (treap.hpp:42) is a parameter `p` of `TInsert`.
- Console output is not modelled: `display_levels` and both `operator<<`, and the tree's `print` and `traverse`. The in-order sequence `InOrder` stands for the order that `traverse(1)` prints.
- Destructors and `deleteTree` only free memory. Erased nodes stay in the arenas but are unreachable.
- `map.hpp` has no logic. Its contract is the `MapOf` view.
- The `"HEAD"` / `"NIL"` sentinel values are never read, so the arena holds no value for the sentinels.
- `benchmark.cpp` is timing and console glue.
- SkipLists.SkipList.Insert, Find and Erase require `k < INT_MAX`. A key equal to NIL's `INT_MAX` makes the code overwrite or unlink the NIL sentinel itself, and the model does not follow that.
- SkipLists.SkipList.Erase promises only that the head leaves no empty level to pop (`Shrunk(head) == head`), not a minimal head. After `reconfigure`, a null chain end can be copied into the head, and the shrink loop then stops above a level whose head link is null. `Search` tolerates this.
- SkipLists.SkipList.Reconfigure does not model the overflow of `step *= 2` (skip_list.hpp:170). `int` is unbounded here, so `step` cannot wrap for very large `sz`.
- `int` keys and `sz` are unbounded integers. The model has no 32-bit wrap-around of `sz`.
- LinkedLists.LinkedList.Difference is generic in `T`, where the code's result type is fixed to `LinkedList<std::string>`.
- Balance and running-time claims (expected logarithmic search) are not modelled. They depend on the random distributions that the model replaces by parameters.

## Findings

| source | as written | input that shows it | evidently intended | confidence | as-written member | corrected member |
|---|---|---|---|---|---|---|
| skip_list.hpp:136-137 | `while (head->forward[head->forward.size()-2] == NIL) head->forward.pop_back();` has no guard on the size of the head | `insert(k, v)` with `level == 1`, then `erase(k)`: the head is `[NIL, NIL]`, one pop leaves `[NIL]`, and the guard then reads index -1 | stop popping at a single level (a guard `size() >= 2`) | not executed | SkipLists.ShrinkAsWritten (SkipLists.ShrinkEmpty, SkipLists.ShrinkEmptyExample) | SkipLists.Shrunk with SkipLists.SkipList.TrimHead (SkipLists.ShrinkAgrees) |
