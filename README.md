# DSAVisualizer, modelled in Dafny

DSAVisualizer is a set of React components. Each one animates a textbook
data structure or algorithm:

- five in-place sorts, each publishing snapshots of its array;
- an array-backed binary min-heap;
- a binary tree with search-tree and level-order insertion, search, deletion
  and a preorder flattening;
- a chained hash table of seven buckets;
- a trie;
- a singly linked list;
- a graph kept as node and edge lists;
- a stack and a queue.

This project models the logic that each component runs when a button is
pressed. It does not model the markup around that logic. Each component
has its own module, and each module takes the form of its source:

- **Sorting**: the sorts work in place on an `array<int>` and return the
  snapshots they publish as a sequence of array values. The `SortingComponent`
  module holds the component's own state: the shown array, the selected
  algorithm, the `isSorting` flag and the snapshots still to show.
  `SortOrder` holds the specification functions and the lemmas about them.
- **MinHeap**: the heap operations copy the heap into an array, then sift
  the new or moved key into place by swaps.
- **Tree**: the trees are values. `insertGeneral`'s queue walk and
  `deleteNode`'s successor walk are loops. `flattenTree`'s `traverse` is a
  recursive method that pushes onto the result.
- **HashTable**: a class with an array of seven chains.
- **Trie**: a class holding a node arena with child maps.
- **LinkedList**: a class over heap-allocated nodes.
- **Graph**: a class holding the node and edge lists and the node-id
  counter. Its edge and node filters are functions.
- **Stack** and **Queue**: functions from the old sequence to the new one.
  Their add handlers are the same guarded append, which `Text` defines
  once as `AppendUnlessBlank`.

Three helper modules support the rest:

- `Text` models JavaScript's `trim()`-based blank test, the append it
  guards, and ASCII `toLowerCase()`.
- `Sequences` holds the removal of a first occurrence, which the linked
  list and the hash table share.
- `Wrappers` holds `Option`.

## Model

| member | source | states |
|---|---|---|
| Sorting.Exchange | src/components/SortingVisualizer.jsx:77 | the array afterwards is the old one with the two entries exchanged and nothing else changed |
| Sorting.BubbleSort | src/components/SortingVisualizer.jsx:71-84 | it publishes exactly the reference trace `BubbleTrace(input)`; the last array shown is sorted and a rearrangement of the input; and every snapshot is a rearrangement of the input; a sorted input publishes nothing |
| SortOrder.BubbleSortSorts | src/components/SortingVisualizer.jsx:74-82 | the reference trace ends sorted; it ends as a rearrangement of the input; every snapshot in it is a rearrangement |
| SortOrder.BubbleRoundsSort | src/components/SortingVisualizer.jsx:74-82 | after pass `i - 1` the last `i` slots hold the largest values in their final order, and the remaining passes finish the sort |
| SortOrder.BubbleShort | src/components/SortingVisualizer.jsx:74-75 | an array of one value or none makes bubble sort publish nothing |
| SortOrder.BubblePassSorted | src/components/SortingVisualizer.jsx:75-80 | a pass over a sorted array finds no adjacent pair out of order, so it exchanges and publishes nothing |
| SortOrder.BubbleRoundsSorted | src/components/SortingVisualizer.jsx:74-82 | all remaining passes over a sorted array leave it and the snapshots so far as they are |
| SortOrder.BubbleSortedQuiet | src/components/SortingVisualizer.jsx:71-84 | bubble sort publishes no snapshot for a sorted input |
| SortOrder.BubbleExample | src/components/SortingVisualizer.jsx:74-82 | on `[5, 3, 4, 1]` bubble sort publishes exactly `[3,5,4,1]`, `[3,4,5,1]`, `[3,4,1,5]`, `[3,1,4,5]`, `[1,3,4,5]` |
| Sorting.SelectionSort | src/components/SortingVisualizer.jsx:86-101 | it publishes exactly one snapshot per slot, self-exchanges included; the last is sorted and a rearrangement of the input; every snapshot is a rearrangement; every snapshot of a sorted input is that input |
| Sorting.SmallestFrom | src/components/SortingVisualizer.jsx:90-95 | the index found holds a smallest value of the rest of the array, and it is the first such index, because the comparison is strict |
| Sorting.SelectStep | src/components/SortingVisualizer.jsx:90-98 | one pass of the outer loop keeps `Selecting`: the sorted prefix grows by one slot holding the smallest values, the array stays a rearrangement, one snapshot is published, and a sorted input does not move |
| SortOrder.SelectingStep | src/components/SortingVisualizer.jsx:90-98 | exchanging the first smallest value of the rest into slot `i` and publishing keeps `Selecting` |
| SortOrder.SelectedInPlace | src/components/SortingVisualizer.jsx:92-97 | on a sorted array the first smallest value of the rest is the next slot itself, because the comparison is strict, so the exchange and its snapshot leave the array as it was |
| SortOrder.SelectionStep | src/components/SortingVisualizer.jsx:96 | exchanging a smallest value of the rest into slot `i` extends the sorted prefix to `i + 1`; the prefix stays no larger than anything after it |
| Sorting.InsertionSort | src/components/SortingVisualizer.jsx:103-120 | the last array shown is sorted and a rearrangement of the input; fewer than two values publish nothing; every snapshot of a sorted input is that input |
| Sorting.InsertKey | src/components/SortingVisualizer.jsx:107-117 | a key that moves `k` places publishes `k + 1` snapshots; the array ends with the key placed after the values not above it; none of the `k` mid-shift snapshots is a rearrangement of the array before the key moved |
| Sorting.InsertStep | src/components/SortingVisualizer.jsx:107-117 | one pass of the outer loop keeps `Inserting`: the sorted prefix grows by one, the array stays a rearrangement and is the one last shown, and a sorted input does not move |
| SortOrder.InsertingStep | src/components/SortingVisualizer.jsx:107-117 | carrying key `i` down and publishing keeps `Inserting` |
| SortOrder.InsertedInPlace | src/components/SortingVisualizer.jsx:109-116 | on a sorted array no value before the key is larger, so nothing shifts, the key is written over itself and its one snapshot is the array as it was |
| SortOrder.InsertedSorted | src/components/SortingVisualizer.jsx:115 | placing the key extends the sorted prefix by one |
| SortOrder.InsertedPermutes | src/components/SortingVisualizer.jsx:115 | once the key is placed, the array is a rearrangement of the one before the shifts |
| Sorting.Merge | src/components/SortingVisualizer.jsx:126-156 | the range is overwritten with the merge of its two halves and nothing outside it changes; exactly `end - start + 1` snapshots are published; the last is the array left; over a sorted range every value is written over itself, so the array and every snapshot stay as they were |
| Sorting.MergeHeads | src/components/SortingVisualizer.jsx:130-143 | the first loop stops with one run used up, having written the head of the merge at each place so far with one snapshot each; a range that holds its merge already stays as it was |
| Sorting.MergeStep | src/components/SortingVisualizer.jsx:133-141 | the smaller head, the left one on a tie, is written at the next place of the range and that run advances; while the merge of the runs is what the range holds, the array and all snapshots stay as they were |
| Sorting.CopyLeft | src/components/SortingVisualizer.jsx:145-149 | the rest of the left run is written at the next places of the range, one snapshot per value, keeping the state of the merge; while the merge of the runs is what the range holds, the array and all snapshots stay as they were |
| Sorting.CopyRight | src/components/SortingVisualizer.jsx:151-155 | the rest of the right run is written likewise, after which both runs are used up |
| SortOrder.MergeDone | src/components/SortingVisualizer.jsx:126-156 | once both runs are used up, the range holds exactly the merge of the two runs with one snapshot per value, and over a sorted range the array and every snapshot are as they were |
| SortOrder.MergeFromInOrder | src/components/SortingVisualizer.jsx:132-155 | when no value left in the left run is above the right run's head, the merge takes the whole left run first |
| SortOrder.MergeOfSorted | src/components/SortingVisualizer.jsx:126-128 | the two halves of a sorted range merge back to exactly that range |
| SortOrder.UnmovedStep | src/components/SortingVisualizer.jsx:132-155 | a write of any of `merge`'s three loops over a range that already holds the merge of its runs leaves the array and every snapshot as they were |
| SortOrder.MergedSorted | src/components/SortingVisualizer.jsx:132-155 | merging two sorted runs gives a sorted run |
| SortOrder.MergedPermutes | src/components/SortingVisualizer.jsx:132-155 | the merge holds exactly the values of the two runs, counted with multiplicity |
| SortOrder.MergedStable | src/components/SortingVisualizer.jsx:133 | the merge is stable: each value of the two runs lands exactly once, and equal values keep their order, left run first, because of the `<=` |
| SortOrder.MergeTakes | src/components/SortingVisualizer.jsx:133-141 | each value written next is the head of the merge of what is left |
| Sorting.MergeSortRange | src/components/SortingVisualizer.jsx:158-164 | the range ends sorted and rearranged, nothing outside it changes, and the number of snapshots is `MergeSnapshots(start, end)`, which is zero when `start >= end`; a sorted range is left as it was and every snapshot is that array |
| SortOrder.MergeSortStep | src/components/SortingVisualizer.jsx:158-164 | sorting both halves and then merging sorts the range, only rearranges it, publishes `MergeSnapshots(start, end)` snapshots ending at the array left, and leaves a sorted range as it was |
| SortOrder.MergeSortInPlace | src/components/SortingVisualizer.jsx:158-164 | over a sorted range both halves and the final merge are over sorted ranges, so every snapshot of the three steps is the array as it was |
| SortOrder.MergeSortSorts | src/components/SortingVisualizer.jsx:158-164 | sorting both halves and then merging sorts the whole range |
| SortOrder.MergeSortKeeps | src/components/SortingVisualizer.jsx:158-164 | the three steps only rearrange the range |
| Sorting.MergeSort | src/components/SortingVisualizer.jsx:122-168 | the last array shown is sorted and a rearrangement of the input; the snapshot count is `MergeSnapshots(0, n - 1)`; every snapshot of a sorted input is that input |
| Sorting.Partition | src/components/SortingVisualizer.jsx:174-189 | returns `p` in `[low, high]` with the old `arr[high]` at `p`, values below it before `p` and none below it after `p`; nothing outside the range changes; the range is rearranged; one snapshot per exchange plus one for the pivot, each a rearrangement; over a sorted range every exchange leaves the array as it was |
| Sorting.ScanBelow | src/components/SortingVisualizer.jsx:177-184 | every value below the pivot is exchanged to the end of the run of such values, one snapshot per exchange, leaving the range split at the returned index; over a sorted range every snapshot is the array as it was |
| Sorting.ScanStep | src/components/SortingVisualizer.jsx:177-184 | a value below the pivot is exchanged to the end of the run of such values and published; over a sorted range that exchange is of the value with itself |
| SortOrder.ScanningInPlace | src/components/SortingVisualizer.jsx:178-181 | on a sorted range every value found below the pivot already sits at the end of the run of such values, so its exchange and snapshot change nothing |
| SortOrder.PlacedInPlace | src/components/SortingVisualizer.jsx:185-186 | on a sorted range the pivot is a largest value, the slot it is exchanged with holds an equal value, and the snapshot is the array as it was |
| SortOrder.PartitionDone | src/components/SortingVisualizer.jsx:185 | the final exchange puts the pivot between the two parts |
| SortOrder.QuickSortStep | src/components/SortingVisualizer.jsx:191-197 | sorting the two parts around a placed pivot sorts the whole range |
| Sorting.QuickSortRange | src/components/SortingVisualizer.jsx:191-197 | the range ends sorted and rearranged, nothing outside it changes, every snapshot is a rearrangement, and `low >= high` publishes nothing; a sorted range is left as it was and every snapshot is that array |
| SortOrder.QuickSortInPlace | src/components/SortingVisualizer.jsx:191-197 | over a sorted range `partition` changes nothing, so both sides are sorted ranges and every snapshot of the three steps is the array as it was |
| Sorting.QuickSort | src/components/SortingVisualizer.jsx:170-201 | the last array shown is sorted and a rearrangement of the input; every snapshot is a rearrangement; fewer than two values publish nothing; every snapshot of a sorted input is that input |
| SortingComponent.Run | src/components/SortingVisualizer.jsx:205-209 | the selected sort, run on a copy of the shown array, keeps all of `Outcome`'s promises, among them that every snapshot of an input sorted already is that input |
| SortingComponent.ShowNext | src/components/SortingVisualizer.jsx:78 | moving on to the next pending snapshot keeps the screen at a snapshot of the run |
| SortingComponent.SortingVisualizer.constructor | src/components/SortingVisualizer.jsx:54-61 | the state starts idle on a freshly drawn array with bubble sort selected |
| SortingComponent.SortingVisualizer.GenerateArray | src/components/SortingVisualizer.jsx:63-67 | a new array of thirty values in `[20, 320)` is shown unless a sort is running, and then nothing changes |
| SortingComponent.SortingVisualizer.SelectAlgorithm | src/components/SortingVisualizer.jsx:217-222 | the choice of sort changes only while no sort runs |
| SortingComponent.SortingVisualizer.HandleSort | src/components/SortingVisualizer.jsx:203-210 | nothing happens while a sort runs; otherwise the run starts from the shown array; the first snapshot is shown and the rest are pending, or the state stays idle when there is none |
| SortingComponent.SortingVisualizer.Resume | src/components/SortingVisualizer.jsx:69-84 | each pause ends by showing the next snapshot; after the last, the flag drops and the array shown is sorted and a rearrangement of the one the run started from |
| SortingComponent.SortingVisualizer.RunEnds | src/components/SortingVisualizer.jsx:203-210 | during a run, the array the run finishes on is sorted and a rearrangement of the starting array |
| SortingComponent.SortingVisualizer.ShownRearranges | src/components/SortingVisualizer.jsx:71-101 | during bubble, selection or quick sort, every array on screen is a rearrangement of the starting array |
| SortingComponent.SortingVisualizer.SortedStays | src/components/SortingVisualizer.jsx:203-210 | during a run over an array that was sorted already, the array on screen is the one the run started from |
| MinHeap.Parent | src/components/MinHeapVisualizer.jsx:18 | the parent index is below the child, and the child is its left or right child |
| MinHeap.IsMinHeapByParent | src/components/MinHeapVisualizer.jsx:16-23 | "every parent is at most its children" holds exactly when "every element is at least its parent" does |
| MinHeap.Swap | src/components/MinHeapVisualizer.jsx:5-7 | the array afterwards is the old one with the two entries exchanged and nothing else changed (`Swapped`, as for `Sorting.Exchange`) |
| MinHeap.RootIsMinimum | src/components/MinHeapVisualizer.jsx:28-32 | in a min-heap the root is at most every element |
| MinHeap.Insert | src/components/MinHeapVisualizer.jsx:14-25 | the heap grows by one; its values are the old ones plus `val`; a min-heap stays a min-heap |
| MinHeap.SiftUp | src/components/MinHeapVisualizer.jsx:16-23 | sift-up only rearranges, and a heap broken only at the last slot becomes a min-heap |
| MinHeap.SiftUpStep | src/components/MinHeapVisualizer.jsx:19-21 | exchanging with a larger parent moves the one broken spot up to the parent |
| MinHeap.DeleteMin | src/components/MinHeapVisualizer.jsx:28-49 | an empty heap stays empty; otherwise the heap shrinks by one and loses exactly one copy of the old root; a min-heap stays a min-heap |
| MinHeap.DeleteMinStart | src/components/MinHeapVisualizer.jsx:30-32 | moving the last value to the root and popping loses exactly one copy of the root, and only the root can then break the heap |
| MinHeap.SiftDown | src/components/MinHeapVisualizer.jsx:34-47 | sift-down only rearranges the heap's first `len` slots, and a heap broken only at the root becomes a min-heap |
| MinHeap.SiftDownStep | src/components/MinHeapVisualizer.jsx:40-45 | exchanging with the smaller child when it is smaller moves the broken spot down to that child |
| MinHeap.SiftDownDone | src/components/MinHeapVisualizer.jsx:43-46 | when no child is smaller, the heap is whole |
| Tree.InsertBST | src/components/TreeVisualizer.jsx:19-24 | the result is a node, holds the old values plus `val` and one more node, and keeps the search-tree order with duplicates routed right |
| Tree.SearchNode | src/components/TreeVisualizer.jsx:58-63 | a node found holds `val` and belongs to the tree; on a search tree a node is found exactly when `val` is stored |
| Tree.LeftmostValue | src/components/TreeVisualizer.jsx:50-51 | the end of the left spine is a stored value, and on a search tree it is the smallest |
| Tree.DeleteNode | src/components/TreeVisualizer.jsx:43-56 | an absent value leaves the tree as it was, the empty tree included; on a search tree exactly one copy is removed and the order is kept |
| Tree.DeleteRoot | src/components/TreeVisualizer.jsx:47-54 | removing the found node loses exactly its value and keeps the order |
| Tree.SuccessorCase | src/components/TreeVisualizer.jsx:50-53 | copying the in-order successor up and deleting it from the right subtree removes exactly the node's value and keeps the order |
| Tree.Traverse | src/components/TreeVisualizer.jsx:219-224 | the nodes of the subtree, in preorder, are pushed after what the result held |
| Tree.FlattenTree | src/components/TreeVisualizer.jsx:217-227 | the result is the preorder of the tree, and its length is the node count |
| Tree.PreorderSize | src/components/TreeVisualizer.jsx:217-227 | the preorder has one entry per node |
| Tree.PreorderValues | src/components/TreeVisualizer.jsx:217-227 | the preorder's values are exactly the tree's values |
| Tree.PreorderSubtrees | src/components/TreeVisualizer.jsx:217-227 | every preorder entry is a node of the tree |
| Tree.InsertGeneral | src/components/TreeVisualizer.jsx:26-41 | the new leaf goes into the first empty child slot in level order, left before right; nothing else changes; the tree gains exactly `val` and one node |
| Tree.EmptyTreeInsert | src/components/TreeVisualizer.jsx:27 | on the empty tree the new node becomes the root |
| Tree.QueueInvariantStep | src/components/TreeVisualizer.jsx:29-38 | taking a full node off the queue front and queueing both its children keeps the walk's invariant, so no earlier slot is skipped |
| Tree.LeftSlotFirst | src/components/TreeVisualizer.jsx:31-33 | a missing left child at the queue front is the first empty slot |
| Tree.RightSlotFirst | src/components/TreeVisualizer.jsx:35-37 | a missing right child after a present left one is the first empty slot |
| Tree.QueueShrinks | src/components/TreeVisualizer.jsx:29-39 | each round of the walk shrinks what is left to visit |
| Tree.BeforeTotal | src/components/TreeVisualizer.jsx:29-39 | level order ranks any two distinct slots, so "first empty slot" is well defined |
| Tree.GraftLeaf | src/components/TreeVisualizer.jsx:32-37 | hanging a leaf in an empty slot adds its value once and one node |
| Tree.HandleInsert | src/components/TreeVisualizer.jsx:65-71 | the mode picks `insertBST` or `insertGeneral`; either way the tree gains exactly `num` |
| Tree.HandleDeleteAsWritten | src/components/TreeVisualizer.jsx:73-79 | what is stored is a copy of `deleteNode`'s result, or a blank object when that result is empty |
| Tree.DeleteLastValueAsWritten | src/components/TreeVisualizer.jsx:77 | inserting 5 and then deleting 5 leaves the blank object on screen, not an empty tree |
| Tree.SoleValueDeleted | src/components/TreeVisualizer.jsx:43-49 | deleting the only value of a one-node tree yields the empty tree |
| Tree.HandleDelete | src/components/TreeVisualizer.jsx:73-79 | corrected: the result of `deleteNode` is stored, so deleting the last value leaves the empty tree |
| HashTable.Hash | src/components/HashTableVisualizer.jsx:24 | JavaScript's truncating remainder: in `[0, 7)` for a non-negative key and in `(-7, 0]` for a negative one |
| HashTable.HashIsRemainder | src/components/HashTableVisualizer.jsx:24 | the key and its hash differ by a multiple of 7 |
| HashTable.HasBucketExactly | src/components/HashTableVisualizer.jsx:29-30 | `table[hash(key)]` exists exactly when the key is non-negative or a multiple of 7 |
| HashTable.HashTableVisualizer.constructor | src/components/HashTableVisualizer.jsx:17 | seven empty chains |
| HashTable.HashTableVisualizer.Insert | src/components/HashTableVisualizer.jsx:26-37 | a key with a bucket goes on the head of its chain, without a duplicate check; no other chain changes; a key without a bucket is refused and nothing changes |
| HashTable.HashTableVisualizer.Search | src/components/HashTableVisualizer.jsx:39-54 | a key without a bucket is reported as such; otherwise the key is found exactly when it is in its chain, at the head-most match |
| HashTable.HashTableVisualizer.Remove | src/components/HashTableVisualizer.jsx:56-79 | only the first occurrence in its chain is unlinked; the rest of that chain keeps its order; an absent key changes nothing; other chains are unchanged |
| HashTable.StaysInBucket | src/components/HashTableVisualizer.jsx:62-68 | unlinking a node keeps every other key in the chain its hash names |
| HashTable.OnlyItsBucket | src/components/HashTableVisualizer.jsx:42-53 | when every chain holds only keys that hash to it, a key is anywhere in the table exactly when it is in its own chain, so searching one chain suffices |
| Trie.WithChildLinked | src/components/TrieVisualizer.jsx:21-23 | creating a missing child keeps the trie well formed; it adds one walkable word and no stored word |
| Trie.WithEndLinked | src/components/TrieVisualizer.jsx:26 | marking a node adds exactly its word to the stored words |
| Trie.Trie.constructor | src/components/TrieVisualizer.jsx:13-16 | only the root exists, and no word is stored |
| Trie.Trie.Insert | src/components/TrieVisualizer.jsx:18-27 | the stored words grow by exactly `word`, so every word found before is still found; inserting a word already walkable creates no node; inserting a stored word changes nothing |
| Trie.Trie.Walk | src/components/TrieVisualizer.jsx:19-25 | the node reached spells `word`, and only the missing prefixes are created |
| Trie.Trie.Child | src/components/TrieVisualizer.jsx:21-24 | the child for `c` exists afterwards, is created only when missing, and spells the parent's word plus `c` |
| Trie.Trie.AddChild | src/components/TrieVisualizer.jsx:22 | adds one node whose word is the parent's word plus `c` and which is linked from the parent |
| Trie.Trie.MarkEnd | src/components/TrieVisualizer.jsx:26 | the node's word becomes stored, and nothing else changes |
| Trie.Trie.Search | src/components/TrieVisualizer.jsx:29-38 | found exactly when `word` is stored; the path spells the matched leading characters; it is full length exactly when `word` can be walked, and otherwise the next character is missing |
| Trie.Trie.MissingChild | src/components/TrieVisualizer.jsx:33 | a missing child at position `i` means no word through it can be walked or is stored |
| Trie.Trie.NodeOfWord | src/components/TrieVisualizer.jsx:37 | the node reached holds the end mark exactly when its word is stored |
| Trie.Trie.StoredPrefixes | src/components/TrieVisualizer.jsx:29-38 | every prefix of a stored word can be walked |
| Trie.InsertedIsFound | src/components/TrieVisualizer.jsx:18-38 | after `insert(w)`, `search(w)` finds it with a full-length path |
| Trie.PrefixIsNotFound | src/components/TrieVisualizer.jsx:37 | a prefix of a stored word that was never stored is not found, though its whole path is walked |
| Trie.HandleInsert | src/components/TrieVisualizer.jsx:50-55 | blank input changes nothing; anything else is lower-cased, but not trimmed, and stored |
| Trie.HandleSearch | src/components/TrieVisualizer.jsx:57-62 | reports whether the lower-cased input is stored, together with the path matched |
| Text.TrimIsEmptyIffBlank | src/components/TrieVisualizer.jsx:51 | `trim()` yields `""` exactly when every character is JavaScript white space |
| Text.AppendUnlessBlank | src/components/StackVisualizer.js:10-11 | a blank input leaves the list as it was; otherwise the untrimmed input is added at the end and the rest is unchanged |
| Text.ToLower | src/components/TrieVisualizer.jsx:52 | the same length, each letter lowered, and no upper-case ASCII letter left |
| Text.ToLowerIdempotent | src/components/TrieVisualizer.jsx:58 | lowering twice is lowering once, so a lowered search matches a lowered insert |
| LinkedList.Node.constructor | src/components/LinkedListVisualizer.js:3-6 | a node holding the value and linking to nothing |
| LinkedList.LinkedListVisualizer.constructor | src/components/LinkedListVisualizer.js:9-12 | the list starts empty, with nothing drawn |
| LinkedList.LinkedListVisualizer.UpdateRenderList | src/components/LinkedListVisualizer.js:14-22 | the values drawn are the values from head to tail; the walk ends because the chain is acyclic |
| LinkedList.LinkedListVisualizer.Insert | src/components/LinkedListVisualizer.js:24-39 | empty input is ignored; otherwise the values become the old ones followed by the input, and the chain stays acyclic |
| LinkedList.Appended | src/components/LinkedListVisualizer.js:35 | linking a fresh node after the last one extends the chain |
| LinkedList.LinkedListVisualizer.HandleDelete | src/components/LinkedListVisualizer.js:41-61 | an empty list is left alone; otherwise only the first node holding the value is removed, the others keep their order, and an absent value changes nothing |
| LinkedList.LinkedListVisualizer.UnlinkFirst | src/components/LinkedListVisualizer.js:44-56 | the dummy heads an acyclic chain of the old nodes whose values are the old values without the first match |
| LinkedList.LinkedListVisualizer.Relinked | src/components/LinkedListVisualizer.js:50-52 | linking `prev` past the first match leaves an acyclic chain without exactly that node |
| LinkedList.Unlinked | src/components/LinkedListVisualizer.js:51 | bypassing the node at `k` leaves an acyclic chain of the other nodes |
| LinkedList.LinkedListVisualizer.Reset | src/components/LinkedListVisualizer.js:63-68 | the list and the drawing are emptied |
| Sequences.RemoveFirstAt | src/components/LinkedListVisualizer.js:49-56 | removing the first occurrence at `k` splices out position `k` and loses one copy of the value |
| Sequences.RemoveFirstAbsent | src/components/LinkedListVisualizer.js:49-59 | removing an absent value changes nothing |
| Graph.WithEdge | src/components/GraphVisualizar.jsx:25-32 | a missing endpoint or `from == to` is refused; otherwise exactly one edge is appended at the end, with no existence or duplicate check |
| Graph.WithoutNode | src/components/GraphVisualizar.jsx:35 | the nodes kept are exactly those with another id |
| Graph.WithoutIncidentEdges | src/components/GraphVisualizar.jsx:36 | the edges kept are exactly those touching neither end at `id` |
| Graph.WithoutNodeKeepsOrder | src/components/GraphVisualizar.jsx:35 | the filter keeps the remaining nodes in order |
| Graph.WithoutIncidentEdgesKeepsOrder | src/components/GraphVisualizar.jsx:36 | the filter keeps the remaining edges in order |
| Graph.WithoutAbsentNode | src/components/GraphVisualizar.jsx:35 | removing an id no node has changes nothing |
| Graph.WithoutNodeRemovesOne | src/components/GraphVisualizar.jsx:34-37 | with distinct ids, the ids stay distinct and exactly one node goes when the id is present |
| Graph.WithoutEdgeAt | src/components/GraphVisualizar.jsx:39-41 | only the edge at the index goes, and an index out of range changes nothing |
| Graph.GraphVisualizer.constructor | src/components/GraphVisualizar.jsx:4-8 | no nodes, no edges, and the counter at 0 |
| Graph.GraphVisualizer.AddNode | src/components/GraphVisualizar.jsx:13-23 | an empty label is ignored; otherwise a node with the next counter value is appended; that id is new, so ids stay pairwise distinct |
| Graph.GraphVisualizer.AddEdge | src/components/GraphVisualizar.jsx:25-32 | the edge list becomes `WithEdge` of the old one |
| Graph.GraphVisualizer.RemoveNode | src/components/GraphVisualizar.jsx:34-37 | the node and exactly its incident edges are removed, and ids stay distinct |
| Graph.GraphVisualizer.RemoveEdge | src/components/GraphVisualizar.jsx:39-41 | the edge list becomes `WithoutEdgeAt` of the old one |
| Stack.Push | src/components/StackVisualizer.js:9-15 | blank input leaves the stack as it was; otherwise the untrimmed input goes on top and the rest is unchanged |
| Stack.Pop | src/components/StackVisualizer.js:17-25 | an empty stack stays empty and nothing is reported; otherwise the top is reported and the stack below it remains |
| Stack.Clear | src/components/StackVisualizer.js:56-59 | the cleared stack is empty: popping it reports nothing |
| Stack.PushThenPop | src/components/StackVisualizer.js:9-25 | a push followed by a pop reports the pushed value and restores the stack |
| Stack.LastInFirstOut | src/components/StackVisualizer.js:9-25 | after `n` non-blank pushes, `n` pops report the inputs in reverse and restore the stack |
| Queue.Enqueue | src/components/QueueVisualizer.js:9-15 | blank input leaves the queue as it was; otherwise the input joins at the rear and the rest is unchanged |
| Queue.Dequeue | src/components/QueueVisualizer.js:17-25 | an empty queue stays empty and nothing is reported; otherwise the front is reported and the rest remains |
| Queue.EnqueueAllAppends | src/components/QueueVisualizer.js:9-15 | several non-blank enqueues append the inputs in order |
| Queue.DequeueAllInOrder | src/components/QueueVisualizer.js:17-25 | dequeuing as many times as there are elements reports them front to back and empties the queue |
| Queue.FirstInFirstOut | src/components/QueueVisualizer.js:9-25 | elements leave in the order they were enqueued, after those already waiting |

## Left out

- Rendering is not modelled: the JSX markup, `framer-motion` animation, the tree, heap, chain and trie drawings, and the SVG arrow geometry of the graph, which is floating-point work.
- Pacing is not modelled as time. `sleep` between snapshots becomes `SortingVisualizer.Resume`, one call per pause. The speed slider changes only the length of a pause, and it is disabled during a run.
- The trie's highlight-clearing timeout is left out, as are all explanation and message texts.
- Randomness becomes input. `generateArray`'s values are a parameter constrained by `Drawn`. Node ids in the tree, hash table and trie become identities or arena positions. Graph coordinates are left out.
- Input parsing is not modelled: `parseInt`, `isNaN` and `alert`. Keys arrive as integers. Graph edge endpoints arrive as `Option<int>`, where `None` stands for `NaN`. Clearing the input fields is left out.
- React's asynchronous, batched `setState` is modelled as immediate assignment. A functional update such as `setNodes(prev => …)` becomes an assignment of the new list.
- Every button and the algorithm select that `isSorting` disables are modelled as guards on the operations.
- `Text.ToLower` lowers ASCII letters only. JavaScript's `toLowerCase` also folds other letters, and that is not modelled.
- `LinkedList.LinkedListVisualizer.HandleDelete` gives the dummy node the empty string. The source gives it `null`, and the value is never read.
- `Tree.InsertBST` and `Tree.DeleteNode` work on tree values. The source relinks and overwrites node objects in place, and the aliasing between React's old and new roots is not modelled.
- `HashTable.HashTableVisualizer.Insert` models each chain as a sequence, head first. The source's linked node objects are modelled as sequence splicing in `Remove`.
- `HashTable.HashTableVisualizer.Insert` refuses a key without a bucket. The source throws a `TypeError` for such a key, which is a negative key not divisible by 7.
- `Graph.GraphVisualizer.constructor` starts the id counter at 0 with the component. In the source the counter belongs to the module and keeps counting across remounts. Ids stay distinct either way.
- Tree deletion and search on a tree built in general mode is not a search tree, so only the search-tree promise is stated for it.
- `Tree.SearchNode` and `HashTable.HashTableVisualizer.Search` return the node or position found. The `highlighted` id derived from it is left out.
- `Sorting.InsertionSort` states no total snapshot count. It is the sum, over all keys, of the places each moved plus one; `Sorting.InsertKey` states the count per key.
- `Sorting.Merge` does not claim that its mid-merge snapshots fail to be rearrangements. In general they can be one: merging `[1]` with `[1]` writes 1 over 1.
- The navigation and static pages `App.js`, `Navbar.jsx` and `AboutMe.jsx` are not part of this model.

## Findings

| source | as written | input that shows it | evidently intended | confidence | as-written member | corrected member |
|---|---|---|---|---|---|---|
| src/components/TreeVisualizer.jsx:77 | `handleDelete` stores `{...updated}` even when `deleteNode` returns `null`, leaving an empty object as the root; that object is truthy and is drawn as a node without a value | insert 5 into the empty tree, then delete 5 | an emptied tree is stored as the empty tree | not executed | Tree.DeleteLastValueAsWritten | Tree.HandleDelete |
