# Verified models of the data structures and container algorithms of a C++ teaching repository

The repository is a collection of small, independent C++ programs. This project models its
computational core in Dafny and proves properties of that model:

- the hand-written data structures of `10_DataStructures`: an open-addressing hash table
  with linear probing, a circular-buffer queue, a binary search tree, a lowercase trie, two
  singly linked lists, two vector-backed stacks and an undirected adjacency-list graph with
  breadth-first and depth-first search;
- the algorithms the standard-container demos implement by hand: postfix evaluation, the
  undo stack and the bracket matcher of the `std::stack` demo; the sliding-window maximum
  and the job scheduler of the `std::deque` demo; tree BFS, bounded task processing and
  print-job totals of the `std::queue` demo; top-K, k-way merge and the event and task
  orderings of the `std::priority_queue` demo; the bounded most-recent-first file list of
  the `std::list` demo; the word tokenizer, word counting and most-frequent selection of the
  map, multiset and unordered-map demos; the memoised Fibonacci function; duplicate
  detection with an unordered set;
- the `Buffer` class with its five special member functions, and `pushStrong` /
  `pushBasic`, which append to a vector with the strong and the basic exception guarantee.

Each source file becomes one module. Classes whose fields the C++ code updates in place are
Dafny classes over arrays or sequences, with `modifies` frames. A class whose fields must
keep an invariant has a predicate `Valid()`: the hash table, the ring queue, the search tree,
the trie, both linked lists, the graph, the recent-file list, the Fibonacci cache and
`Buffer`. The vector-backed stack `VectorStack.Stack`, `ExceptionSafety.Vector` and
`StackAdaptor.UndoSystem` accept any field values and have none; their methods state the
new fields outright. Ghost fields appear only where the fields alone do not show the
abstract value: the node sequence of each linked list, the paths and parents of the trie
and the largest cached argument of the Fibonacci cache. Standard-library
containers used by the demos are their mathematical counterparts: `std::stack`,
`std::deque` and `std::queue` are sequences, heaps are multisets, `std::map` and
`std::unordered_map` are maps, `std::set` and `std::unordered_set` are sets, and a
`std::multiset<std::string>` is its sorted storage. Printed output becomes returned
sequences. Each `main` or `exampleN` function becomes a method whose contract states what
the program prints.

Four modules are shared:

- `Wrappers` holds `Option`.
- `Words` holds the space tokenizer of the map and multiset demos, its inverse `Unwords`,
  and the lexicographic order of `std::string`.
- `Traversal` holds graph reachability and the breadth-first search used by both the graph
  class and the queue demo. A recursive reference order, `BfsOrder`, defines what the search
  prints without the marks array. The first parent of a printed vertex is the earliest
  vertex before it that lists it as a neighbour. The search is proved to keep first parents
  nondecreasing, and `DepthShortest` shows that the depth in the first-parent tree is then
  the hop distance from the start. The depth-first search in `GraphImpl` has its own
  recursive reference order, `DfsOrder`.
- `MapOps` holds the semantics of `std::map::operator[]`, `insert` and `at`, and of the
  word-counting loop built on them.


## Model

| member | source | states |
|---|---|---|
| HashTableImpl.Hash | 10_DataStructures/06_HashTable/HashTableImplementation.cpp:15 | the home slot is below the capacity; for a key whose `size_t` conversion is itself it is `k % cap` (a negative key first wraps modulo 2^64) |
| HashTableImpl.Next | 10_DataStructures/06_HashTable/HashTableImplementation.cpp:21 | one probe step `(idx + 1) % size` stays inside the table |
| HashTableImpl.Probe | 10_DataStructures/06_HashTable/HashTableImplementation.cpp:20-21 | the d-th slot probed from home slot h is `(h + d) % n`, always a slot of the table |
| HashTableImpl.ProbeAdvance | 10_DataStructures/06_HashTable/HashTableImplementation.cpp:21 | one probe step from the d-th probed slot reaches the (d+1)-th |
| HashTableImpl.Dist | 10_DataStructures/06_HashTable/HashTableImplementation.cpp:26-30 | every slot is the d-th probe from any home slot for exactly one d below the size |
| HashTableImpl.DistOfProbe | 10_DataStructures/06_HashTable/HashTableImplementation.cpp:26-30 | the probe distance of the d-th probed slot is d, so one wrap visits every slot once |
| HashTableImpl.Occupied | 10_DataStructures/06_HashTable/HashTableImplementation.cpp:14 | the number of occupied slots never exceeds the table size |
| HashTableImpl.EmptyTable | 10_DataStructures/06_HashTable/HashTableImplementation.cpp:17 | a table of default entries has no occupied slot and stores no key |
| HashTableImpl.FillSlot | 10_DataStructures/06_HashTable/HashTableImplementation.cpp:22 | filling a free slot with k adds one occupied slot and exactly one copy of k to the stored keys |
| HashTableImpl.FillCount | 10_DataStructures/06_HashTable/HashTableImplementation.cpp:22 | filling a free slot adds exactly one occupied slot |
| HashTableImpl.FillKeys | 10_DataStructures/06_HashTable/HashTableImplementation.cpp:22 | filling a free slot with k adds exactly one copy of k to the stored keys |
| HashTableImpl.StoredKeysMember | 10_DataStructures/06_HashTable/HashTableImplementation.cpp:24-33 | k is a stored key if and only if some occupied slot holds k |
| HashTableImpl.AllOccupied | 10_DataStructures/06_HashTable/HashTableImplementation.cpp:19 | a table with every slot occupied has as many occupied slots as slots |
| HashTableImpl.FullRun | 10_DataStructures/06_HashTable/HashTableImplementation.cpp:19-21 | if every slot of a whole probe run is occupied the table is full, so below capacity the probe loop of `insert` stops |
| HashTableImpl.ProbeStopped | 10_DataStructures/06_HashTable/HashTableImplementation.cpp:27-32 | when the lookup stops at a free slot, or after one full wrap, without meeting k, and every stored key is reachable along its probe chain, no occupied slot holds k |
| HashTableImpl.FillKeepsChains | 10_DataStructures/06_HashTable/HashTableImplementation.cpp:21-22 | filling the first free slot of k's probe chain keeps every stored key, k included, reachable along its probe chain |
| HashTableImpl.HashTable.constructor | 10_DataStructures/06_HashTable/HashTableImplementation.cpp:17 | `cap` free slots, count 0, no keys |
| HashTableImpl.HashTable.Insert | 10_DataStructures/06_HashTable/HashTableImplementation.cpp:18-23 | succeeds exactly when `count < size`; on failure the table and count are unchanged; on success exactly one previously free slot now holds k, count grows by 1, the stored keys gain one copy of k (duplicates take a second slot) and the invariant (count equals the occupied slots, probe chains intact) holds |
| HashTableImpl.HashTable.Contains | 10_DataStructures/06_HashTable/HashTableImplementation.cpp:24-33 | read-only; the result is true if and only if k is a stored key, also on a full table |
| HashTableImpl.Example | 10_DataStructures/06_HashTable/HashTableImplementation.cpp:36-42 | after inserting 5, 16, 27, 38 into 11 slots, 16 is found and 99 is not; inserting 16 again makes the count 5 |
| HashTableImpl.FourKeys | 10_DataStructures/06_HashTable/HashTableImplementation.cpp:37-38 | the four inserts all succeed: count 4 and keys {5, 16, 27, 38} |
| QueueImpl.Slot | 10_DataStructures/03_Queue/QueueImplementation.cpp:20 | the slot i places after h is a slot of the ring |
| QueueImpl.SlotIsMod | 10_DataStructures/03_Queue/QueueImplementation.cpp:20 | that slot is `(h + i) % n`, the index arithmetic of `tail` and `head` |
| QueueImpl.Ring | 10_DataStructures/03_Queue/QueueImplementation.cpp:11-12 | the abstract queue read from the buffer has `count` elements |
| QueueImpl.RingWrite | 10_DataStructures/03_Queue/QueueImplementation.cpp:19-21 | writing the slot at `tail` and counting it appends the value to the abstract queue |
| QueueImpl.RingAdvance | 10_DataStructures/03_Queue/QueueImplementation.cpp:25-26 | advancing `head` and counting one fewer drops the oldest element |
| QueueImpl.Queue.constructor | 10_DataStructures/03_Queue/QueueImplementation.cpp:14 | an empty queue over `capacity` slots (8 by default) with the invariant `count <= capacity`, `head, tail < capacity`, `tail == (head + count) % capacity` |
| QueueImpl.Queue.Empty | 10_DataStructures/03_Queue/QueueImplementation.cpp:15 | true if and only if the queue holds no element |
| QueueImpl.Queue.Full | 10_DataStructures/03_Queue/QueueImplementation.cpp:16 | true if and only if the queue holds `capacity` elements |
| QueueImpl.Queue.Front | 10_DataStructures/03_Queue/QueueImplementation.cpp:28 | requires a non-empty queue (no guard in the source); returns the oldest element |
| QueueImpl.Queue.Enqueue | 10_DataStructures/03_Queue/QueueImplementation.cpp:17-22 | a full queue is unchanged; otherwise v is appended; the invariant is kept |
| QueueImpl.Queue.Dequeue | 10_DataStructures/03_Queue/QueueImplementation.cpp:23-27 | an empty queue is unchanged; otherwise the oldest element is dropped; the invariant is kept |
| QueueImpl.Example | 10_DataStructures/03_Queue/QueueImplementation.cpp:31-38 | after enqueuing 1, 2, 3 into five slots the front is 1, and after one dequeue it is 2 |
| BinaryTree.InsertRec | 10_DataStructures/04_BinaryTree/BinaryTreeImplementation.cpp:18-21 | the key set gains exactly k; BST ordering is preserved; inserting a key already present (no branch handles equality) returns the tree unchanged |
| BinaryTree.SearchRec | 10_DataStructures/04_BinaryTree/BinaryTreeImplementation.cpp:22-26 | a positive answer means k is a key; on a BST the answer is true if and only if k is a key |
| BinaryTree.InorderRec | 10_DataStructures/04_BinaryTree/BinaryTreeImplementation.cpp:27-32 | the in-order traversal lists exactly the keys of the tree; on a BST it is strictly increasing with one entry per key, so it is the sorted key set |
| BinaryTree.SplitKeys | 10_DataStructures/04_BinaryTree/BinaryTreeImplementation.cpp:20 | the keys of a BST node are its left keys, its key and its right keys, all different |
| BinaryTree.InsertThenContains | 10_DataStructures/04_BinaryTree/BinaryTreeImplementation.cpp:34-35 | after `insert(k)` on a BST, `contains(k)` is true |
| BinaryTree.InsertOthersUnchanged | 10_DataStructures/04_BinaryTree/BinaryTreeImplementation.cpp:34-35 | `insert(k)` on a BST does not change the answer of `contains(x)` for any other x |
| BinaryTree.BST.constructor | 10_DataStructures/04_BinaryTree/BinaryTreeImplementation.cpp:17 | an empty tree |
| BinaryTree.BST.Insert | 10_DataStructures/04_BinaryTree/BinaryTreeImplementation.cpp:34 | the root becomes the `insertRec` result: keys gain exactly k, ordering kept, an existing key changes nothing |
| BinaryTree.BST.Contains | 10_DataStructures/04_BinaryTree/BinaryTreeImplementation.cpp:35 | true if and only if k is a key of the tree |
| BinaryTree.BST.Inorder | 10_DataStructures/04_BinaryTree/BinaryTreeImplementation.cpp:36 | the printed sequence is strictly increasing and holds exactly the keys |
| BinaryTree.ExampleTree | 10_DataStructures/04_BinaryTree/BinaryTreeImplementation.cpp:41-44 | the tree built by inserting 5, 3, 7, 2, 4, 6, 8 prints 2 3 4 5 6 7 8, contains 4 and not 10 |
| BinaryTree.Example | 10_DataStructures/04_BinaryTree/BinaryTreeImplementation.cpp:39-46 | `main` prints 2 3 4 5 6 7 8, then true for 4 and false for 10 |
| TrieImpl.ChildIndex | 10_DataStructures/07_Trie/TrieImplementation.cpp:24 | the child index `ch - 'a'` of a lowercase letter is below 26 and names that letter |
| TrieImpl.Letter | 10_DataStructures/07_Trie/TrieImplementation.cpp:24 | each of the 26 child indices stands for a lowercase letter |
| TrieImpl.Filter | 10_DataStructures/07_Trie/TrieImplementation.cpp:22-23 | the word `insert` actually stores, with every character outside `a..z` skipped, consists of lowercase letters only |
| TrieImpl.FilterLetters | 10_DataStructures/07_Trie/TrieImplementation.cpp:23 | a word of lowercase letters is stored as it is |
| TrieImpl.FilterIdempotent | 10_DataStructures/07_Trie/TrieImplementation.cpp:23 | filtering twice is filtering once |
| TrieImpl.EmptyNode | 10_DataStructures/07_Trie/TrieImplementation.cpp:12-15 | a new node has 26 empty children and is not terminal |
| TrieImpl.LettersGrow | 10_DataStructures/07_Trie/TrieImplementation.cpp:25 | a child created under a node is reached by that node's letters and one more lowercase letter |
| TrieImpl.WordsGrow | 10_DataStructures/07_Trie/TrieImplementation.cpp:25 | creating a non-terminal child adds no word |
| TrieImpl.WordsMark | 10_DataStructures/07_Trie/TrieImplementation.cpp:28 | setting `terminal` on a node adds exactly the word spelled by the path to it |
| TrieImpl.Trie.RootOnlyEmpty | 10_DataStructures/07_Trie/TrieImplementation.cpp:18 | the root is the only node reached by the empty word |
| TrieImpl.Trie.PathsInjective | 10_DataStructures/07_Trie/TrieImplementation.cpp:25-26 | different nodes are reached by different words, so the trie is a tree |
| TrieImpl.Trie.PrefixNode | 10_DataStructures/07_Trie/TrieImplementation.cpp:32-36 | every prefix of a node's word reaches a node, the one the lookup walk passes |
| TrieImpl.Trie.WordsAreLetters | 10_DataStructures/07_Trie/TrieImplementation.cpp:23 | every stored word consists of lowercase letters only |
| TrieImpl.Trie.constructor | 10_DataStructures/07_Trie/TrieImplementation.cpp:18 | a root with no children: no words |
| TrieImpl.Trie.Insert | 10_DataStructures/07_Trie/TrieImplementation.cpp:20-29 | the stored words become the old ones plus the filtered word, so earlier words stay stored (insert is monotone) |
| TrieImpl.Trie.MarkTerminal | 10_DataStructures/07_Trie/TrieImplementation.cpp:28 | marking a node adds exactly its word |
| TrieImpl.Trie.AddChild | 10_DataStructures/07_Trie/TrieImplementation.cpp:25 | creating the missing child `idx` of a node links the new node there and keeps the stored words and existing paths |
| TrieImpl.Trie.Contains | 10_DataStructures/07_Trie/TrieImplementation.cpp:30-39 | true if and only if the word is stored; false for any word with a character outside `a..z`, even just after inserting it |
| TrieImpl.Example | 10_DataStructures/07_Trie/TrieImplementation.cpp:42-49 | after inserting "hello" and "help", "hello" is found and its proper prefix "hel" is not |
| LinkedListImpl.Node.constructor | 10_DataStructures/01_LinkedList/LinkedListImplementation.cpp:13 | a new node holds v and links to nothing |
| LinkedListImpl.RemoveFirstAt | 10_DataStructures/01_LinkedList/LinkedListImplementation.cpp:37-53 | when the first occurrence of v is at position i, removal leaves the values before it followed by those after it |
| LinkedListImpl.RemoveFirstAbsent | 10_DataStructures/01_LinkedList/LinkedListImplementation.cpp:40-54 | removing a value that does not occur leaves the list as it was |
| LinkedListImpl.RemoveFirstMultiset | 10_DataStructures/01_LinkedList/LinkedListImplementation.cpp:37-55 | removal takes away exactly one copy of v, or nothing when v is absent, and never adds anything |
| LinkedListImpl.RemoveFirstLength | 10_DataStructures/01_LinkedList/LinkedListImplementation.cpp:37-55 | removal shortens the list by one exactly when v occurs |
| LinkedListImpl.DistinctSplice | 10_DataStructures/01_LinkedList/LinkedListImplementation.cpp:46 | cutting one node out of a chain of distinct nodes leaves the others distinct |
| LinkedListImpl.ValuesSplice | 10_DataStructures/01_LinkedList/LinkedListImplementation.cpp:43-46 | cutting node i out of the chain cuts value i out of the list of values |
| LinkedListImpl.LinkedList.constructor | 10_DataStructures/01_LinkedList/LinkedListImplementation.cpp:17-18 | a new list has no head, no tail and no values |
| LinkedListImpl.LinkedList.PushFront | 10_DataStructures/01_LinkedList/LinkedListImplementation.cpp:20-25 | v becomes the first value, in a new head node before the old chain; the tail is set only when the list was empty |
| LinkedListImpl.LinkedList.PushBack | 10_DataStructures/01_LinkedList/LinkedListImplementation.cpp:26-36 | v becomes the last value, in a new tail node after the old chain |
| LinkedListImpl.LinkedList.Remove | 10_DataStructures/01_LinkedList/LinkedListImplementation.cpp:37-55 | returns true exactly when v occurs; the values become those with the first occurrence of v removed, and head, tail and links stay consistent |
| LinkedListImpl.LinkedList.Unlink | 10_DataStructures/01_LinkedList/LinkedListImplementation.cpp:41-48 | unlinking node i, given its predecessor, removes exactly that node from the chain and its value from the list |
| LinkedListImpl.LinkedList.UnlinkHead | 10_DataStructures/01_LinkedList/LinkedListImplementation.cpp:42-44 | removing the head makes the second node the head, and clears the tail when the list becomes empty |
| LinkedListImpl.LinkedList.UnlinkAfter | 10_DataStructures/01_LinkedList/LinkedListImplementation.cpp:45-47 | linking the predecessor past node i removes exactly that node, and the predecessor becomes the tail when node i was last |
| LinkedListImpl.LinkedList.Print | 10_DataStructures/01_LinkedList/LinkedListImplementation.cpp:56-60 | prints the values from head to tail |
| LinkedListImpl.RemoveTwo | 10_DataStructures/01_LinkedList/LinkedListImplementation.cpp:70 | removing 2 from 0 1 2 3 gives 0 1 3 |
| LinkedListImpl.Example | 10_DataStructures/01_LinkedList/LinkedListImplementation.cpp:63-72 | `main` prints 0 1 2 3, removes 2 successfully, then prints 0 1 3 |
| LinkedListExample.Node.constructor | 10_DataStructures/01_LinkedList/LinkedListExample.cpp:11 | a new node holds d and links to nothing |
| LinkedListExample.LinkedList.constructor | 10_DataStructures/01_LinkedList/LinkedListExample.cpp:17 | a new list is empty |
| LinkedListExample.LinkedList.Push | 10_DataStructures/01_LinkedList/LinkedListExample.cpp:25-29 | `push` puts the value in a new node in front of the old chain, so it becomes the first value |
| LinkedListExample.LinkedList.Print | 10_DataStructures/01_LinkedList/LinkedListExample.cpp:30-37 | prints the values from head to end of chain |
| LinkedListExample.LinkedList.Destroy | 10_DataStructures/01_LinkedList/LinkedListExample.cpp:18-24 | the destructor's loop walks the whole chain, deleting one node per value, and leaves the list empty |
| LinkedListExample.Example | 10_DataStructures/01_LinkedList/LinkedListExample.cpp:40-47 | pushing 3, 2, 1 at the front prints 1 2 3 |
| VectorStack.Stack.constructor | 10_DataStructures/02_Stack/StackExample.cpp:12 | a new stack is empty (the same class as in StackImplementation.cpp) |
| VectorStack.Stack.Push | 10_DataStructures/02_Stack/StackExample.cpp:14 | the value goes on top (also StackImplementation.cpp line 13) |
| VectorStack.Stack.Pop | 10_DataStructures/02_Stack/StackExample.cpp:15 | removes exactly the top element; on an empty stack nothing changes (also StackImplementation.cpp line 14) |
| VectorStack.Stack.Top | 10_DataStructures/02_Stack/StackExample.cpp:16 | the last element pushed and not popped (also StackImplementation.cpp line 15) |
| VectorStack.Stack.Empty | 10_DataStructures/02_Stack/StackExample.cpp:17 | true exactly when the size is 0 (also StackImplementation.cpp line 16) |
| VectorStack.Stack.Size | 10_DataStructures/02_Stack/StackExample.cpp:18 | the number of elements held (also StackImplementation.cpp line 17) |
| VectorStack.IntStackExample | 10_DataStructures/02_Stack/StackImplementation.cpp:20-27 | pushing 10, 20, 30 shows top 30, and 20 after one pop |
| VectorStack.TemplateStackExample | 10_DataStructures/02_Stack/StackExample.cpp:21-30 | pushing 1, 2, 3 shows top 3, and top 2 with size 2 after one pop |
| Traversal.ReachStep | 10_DataStructures/05_Graph/GraphImplementation.cpp:23 | a neighbour of a vertex reachable from s is reachable from s |
| Traversal.ReachFirstStep | 10_DataStructures/05_Graph/GraphImplementation.cpp:29 | whatever a neighbour of u reaches, u reaches |
| Traversal.ClosedHoldsReachable | 10_DataStructures/05_Graph/GraphImplementation.cpp:20-24 | a set of vertices that contains s and every neighbour of its members contains everything reachable from s |
| Traversal.DistinctBounded | 10_DataStructures/05_Graph/GraphImplementation.cpp:17 | a list of distinct vertices below n has at most n entries, so each traversal visits each vertex at most once |
| Traversal.ParentFrom | 10_DataStructures/05_Graph/GraphImplementation.cpp:23 | the result is the first index from k on whose vertex lists `s[j]` as a neighbour, or j when there is none |
| Traversal.ParentPrefix | 10_DataStructures/05_Graph/GraphImplementation.cpp:21-23 | the first parent of a vertex is fixed once the vertex is output: appending later vertices does not change it |
| Traversal.DepthMonotone | 10_DataStructures/05_Graph/GraphImplementation.cpp:20-24 | in an order where each vertex after the first has an earlier first parent and first parents never go backwards, depth in the first-parent tree never decreases along the order |
| Traversal.DepthPath | 10_DataStructures/05_Graph/GraphImplementation.cpp:23 | following first parents back from a vertex gives a walk from the start with one step per level of depth |
| Traversal.DepthShortest | 10_DataStructures/05_Graph/GraphImplementation.cpp:20-24 | in such an order listing every reachable vertex once, no walk from the start is shorter than a vertex's depth, so depth is the hop distance and the search outputs vertices by nondecreasing distance |
| Traversal.PopStep | 10_DataStructures/05_Graph/GraphImplementation.cpp:21-22 | taking the front of the queue and printing it keeps the search state: discovered vertices (printed, then queued) are exactly the marked ones, distinct and reachable from the start, and form a layered first-parent tree |
| Traversal.NewChild | 10_DataStructures/05_Graph/GraphImplementation.cpp:23 | an undiscovered neighbour of the vertex just printed has that vertex as its first parent, because every earlier printed vertex has all its neighbours discovered |
| Traversal.PushTree | 10_DataStructures/05_Graph/GraphImplementation.cpp:23 | queueing such a neighbour keeps every discovered vertex linked to an earlier first parent among the printed ones, with first parents nondecreasing |
| Traversal.PushStep | 10_DataStructures/05_Graph/GraphImplementation.cpp:23 | marking and queueing an unmarked neighbour of the vertex just printed keeps the search state |
| Traversal.ExploredPop | 10_DataStructures/05_Graph/GraphImplementation.cpp:21-22 | moving the queue front to the output keeps every neighbour of the earlier output vertices discovered |
| Traversal.ExploredPush | 10_DataStructures/05_Graph/GraphImplementation.cpp:23 | queueing one more vertex keeps them discovered |
| Traversal.ExploredLast | 10_DataStructures/05_Graph/GraphImplementation.cpp:23 | once the inner loop has seen every neighbour of the vertex just output, the neighbours of all output vertices are discovered |
| Traversal.UnvisitedShrinks | 10_DataStructures/05_Graph/GraphImplementation.cpp:28 | marking vertices never increases the number of unmarked ones, and marking a new one decreases it, so both searches end |
| Traversal.Unmarked | 10_DataStructures/05_Graph/GraphImplementation.cpp:17 | `std::vector<bool> vis(n)` starts with n unmarked entries |
| Traversal.Mark | 10_DataStructures/05_Graph/GraphImplementation.cpp:23 | marking the vertices of a list sets exactly those entries and keeps the others |
| Traversal.MarkExactly | 10_DataStructures/05_Graph/GraphImplementation.cpp:23 | a marks vector that adds exactly the vertices of a list is the marking by that list |
| Traversal.NewNeighbours | 10_DataStructures/05_Graph/GraphImplementation.cpp:23 | the vertices the inner loop queues from a list are exactly its entries unmarked on entry, each once |
| Traversal.BfsUnfold | 10_DataStructures/05_Graph/GraphImplementation.cpp:20-23 | the reference order from a queue prints the front and continues from the rest followed by the front's unmarked neighbours, with those marked |
| Traversal.BfsReference | 10_DataStructures/05_Graph/GraphImplementation.cpp:20-23 | one iteration of the outer loop extends the printed prefix of the reference order by the front vertex |
| Traversal.BfsPop | 10_DataStructures/05_Graph/GraphImplementation.cpp:21-22 | popping a non-empty queue leaves room in the output and sets up the inner loop's state |
| Traversal.BfsStep | 10_DataStructures/05_Graph/GraphImplementation.cpp:20-24 | the inner loop's result puts the outer loop back in its invariant: the output followed by the reference order from the new queue and marks is the reference order from the start |
| Traversal.EnqueueNeighbours | 10_DataStructures/05_Graph/GraphImplementation.cpp:23 | the inner loop over `adj[u]` appends to the queue exactly the neighbours unmarked on entry, in list order, marks exactly those, and afterwards every neighbour of u is printed or queued |
| Traversal.EnqueueIfUnvisited | 10_DataStructures/05_Graph/GraphImplementation.cpp:23 | `if (!vis[v]) { vis[v] = true; q.push(v); }` for one neighbour keeps the inner loop's state, one entry further |
| Traversal.ScanDone | 10_DataStructures/05_Graph/GraphImplementation.cpp:23 | after the whole list the queue is the old queue followed by the unmarked neighbours, the marks add exactly those, and the search state holds |
| Traversal.BfsDone | 10_DataStructures/05_Graph/GraphImplementation.cpp:20-24 | once the queue is empty, the printed vertices are exactly those reachable from the start, each after the first has an earlier first parent, and first parents never go backwards |
| Traversal.Bfs | 10_DataStructures/05_Graph/GraphImplementation.cpp:16-26 | the BFS prints the reference order `BfsOrder`: the start first, no vertex twice, exactly the vertices reachable from the start, each later one a neighbour of an earlier one, with first parents nondecreasing, that is by nondecreasing hop distance |
| GraphImpl.CountAppend | 10_DataStructures/05_Graph/GraphImplementation.cpp:15 | appending e to a neighbour list adds one occurrence of e and nothing else |
| GraphImpl.AddEdgeKeepsInvariant | 10_DataStructures/05_Graph/GraphImplementation.cpp:15 | `addEdge` appends v to u's list and u to v's list (both to the same list for a self-loop), leaves other lists alone, and keeps every neighbour a vertex and adjacency symmetric |
| GraphImpl.CountAfterEdge | 10_DataStructures/05_Graph/GraphImplementation.cpp:15 | after `addEdge(u, v)`, x's list holds w once more exactly when (x, w) is (u, v) or (v, u) |
| GraphImpl.JoinDistinct | 10_DataStructures/05_Graph/GraphImplementation.cpp:29 | the vertices a recursive call prints, all unmarked before it, do not repeat those printed before |
| GraphImpl.CallStep | 10_DataStructures/05_Graph/GraphImplementation.cpp:29 | one recursive `dfsUtil(v, vis)` call for an unmarked neighbour v keeps the invariant of the loop over `adj[u]`, including that each printed vertex after u is a neighbour of an earlier one |
| GraphImpl.JoinLinked | 10_DataStructures/05_Graph/GraphImplementation.cpp:29 | appending the output of a call on a neighbour of u keeps every printed vertex after u adjacent to an earlier one |
| GraphImpl.DfsStart | 10_DataStructures/05_Graph/GraphImplementation.cpp:28 | marking u and printing it starts the scan of `adj[u]`, with the whole reference visit still to come |
| GraphImpl.DfsSkip | 10_DataStructures/05_Graph/GraphImplementation.cpp:29 | a neighbour already marked is skipped by both the loop and the reference visit |
| GraphImpl.DfsCall | 10_DataStructures/05_Graph/GraphImplementation.cpp:29 | a call on an unmarked neighbour appends that neighbour's reference visit and keeps the loop invariant |
| GraphImpl.DfsCallOrder | 10_DataStructures/05_Graph/GraphImplementation.cpp:29 | the reference scan after a visited neighbour continues with the marks that visit leaves |
| GraphImpl.DfsEnd | 10_DataStructures/05_Graph/GraphImplementation.cpp:29-30 | after the whole list the output is the reference visit of u and every neighbour of a printed vertex is marked |
| GraphImpl.NoEdges | 10_DataStructures/05_Graph/GraphImplementation.cpp:14 | the graph of n vertices starts with n empty neighbour lists |
| GraphImpl.Graph.constructor | 10_DataStructures/05_Graph/GraphImplementation.cpp:14 | n vertices, no edges |
| GraphImpl.Graph.AddEdge | 10_DataStructures/05_Graph/GraphImplementation.cpp:15 | the neighbour lists become those with the undirected edge added, and stay symmetric with every neighbour a vertex |
| GraphImpl.Graph.Bfs | 10_DataStructures/05_Graph/GraphImplementation.cpp:16-26 | prints the reference order `BfsOrder`: the start first, each vertex at most once, exactly the vertices reachable from the start, each later one a neighbour of an earlier one, by nondecreasing hop distance |
| GraphImpl.Graph.DfsUtil | 10_DataStructures/05_Graph/GraphImplementation.cpp:27-30 | prints the reference visit `DfsVisit` from the marks on entry: u first, then exactly the vertices newly marked, each once, each after u a neighbour of an earlier one; every neighbour of a printed vertex ends marked |
| GraphImpl.Graph.Dfs | 10_DataStructures/05_Graph/GraphImplementation.cpp:31-36 | prints the reference order `DfsOrder`: the start first, each vertex at most once, exactly the vertices reachable from the start, each later one a neighbour of an earlier one |
| GraphImpl.EdgeYields | 10_DataStructures/05_Graph/GraphImplementation.cpp:15 | the neighbour lists that differ from a's only by v appended to u's and u appended to v's are those of `addEdge(u, v)` |
| GraphImpl.ExampleListsValue | 10_DataStructures/05_Graph/GraphImplementation.cpp:40-41 | the five `addEdge` calls give the lists 0: 1 2, 1: 0 3, 2: 0 4, 3: 1, 4: 2 5, 5: 4 |
| GraphImpl.ExampleGraph | 10_DataStructures/05_Graph/GraphImplementation.cpp:40-41 | the graph `main` builds has exactly those lists |
| GraphImpl.ExampleConnected | 10_DataStructures/05_Graph/GraphImplementation.cpp:40-41 | in that graph every vertex 0 to 5, and nothing else, is reachable from 0 |
| GraphImpl.ExampleBfsOrder | 10_DataStructures/05_Graph/GraphImplementation.cpp:40-42 | the reference breadth-first order of the example graph from 0 is 0 1 2 3 4 5 |
| GraphImpl.ExampleDfsOrder | 10_DataStructures/05_Graph/GraphImplementation.cpp:40-43 | the reference depth-first order of the example graph from 0 is 0 1 3 2 4 5 |
| GraphImpl.Example | 10_DataStructures/05_Graph/GraphImplementation.cpp:39-45 | `bfs(0)` prints 0 1 2 3 4 5 and `dfs(0)` prints 0 1 3 2 4 5 |
| StackAdaptor.TruncDiv | 01_STL_Containers/04_ContainerAdaptors/StackExample.cpp:113 | C++ `a / b` truncates toward zero: the remainder is smaller than the divisor in magnitude and is zero or has the sign of the dividend |
| StackAdaptor.TruncDivRemainder | 01_STL_Containers/04_ContainerAdaptors/StackExample.cpp:113 | the truncated quotient built from magnitudes leaves as remainder the dividend's magnitude modulo the divisor's, with the dividend's sign |
| StackAdaptor.Apply | 01_STL_Containers/04_ContainerAdaptors/StackExample.cpp:109-115 | each operator gives its exact result when that fits in a 32-bit `int`; division by zero and any result outside `int` are undefined and give no value |
| StackAdaptor.StepEffect | 01_STL_Containers/04_ContainerAdaptors/StackExample.cpp:100-120 | a digit pushes its value; any other character but an operator with two operands leaves the stack alone; an operator pops two and pushes one, keeping the rest |
| StackAdaptor.RunAppend | 01_STL_Containers/04_ContainerAdaptors/StackExample.cpp:99-121 | scanning a + b is scanning a and then b from the stack a leaves, undefined as soon as either part is |
| StackAdaptor.EvaluatePostfix | 01_STL_Containers/04_ContainerAdaptors/StackExample.cpp:99-121 | the character loop leaves exactly the stack the scan semantics defines, or reports the undefined behaviour |
| StackAdaptor.RunRender | 01_STL_Containers/04_ContainerAdaptors/StackExample.cpp:99-121 | the postfix text of any expression tree of digits and operators, evaluated on any stack, pushes exactly the tree's value, or is undefined exactly when the tree's value is |
| StackAdaptor.OperatorLast | 01_STL_Containers/04_ContainerAdaptors/StackExample.cpp:104-117 | a space and an operator on a stack ending in a, b replace them with `a op b` |
| StackAdaptor.PostfixExample | 01_STL_Containers/04_ContainerAdaptors/StackExample.cpp:92-93 | "5 3 + 2 *" leaves exactly 16 on the stack |
| StackAdaptor.PostfixDemo | 01_STL_Containers/04_ContainerAdaptors/StackExample.cpp:123-125 | the final result printed is 16 |
| StackAdaptor.UndoSystem.constructor | 01_STL_Containers/04_ContainerAdaptors/StackExample.cpp:137-138 | the document starts as "Empty Document" with no history |
| StackAdaptor.UndoSystem.PerformAction | 01_STL_Containers/04_ContainerAdaptors/StackExample.cpp:140-144 | the old state is pushed on the history and the action becomes the state, so the timeline grows by the action |
| StackAdaptor.UndoSystem.Undo | 01_STL_Containers/04_ContainerAdaptors/StackExample.cpp:146-155 | undoes exactly when the history is non-empty: the state becomes the top of the history, which is popped, and the timeline loses its last state; otherwise nothing changes |
| StackAdaptor.UndoDemo | 01_STL_Containers/04_ContainerAdaptors/StackExample.cpp:157-170 | after three actions the history holds 3 states, and after two undos the document is "Added 'Hello'" |
| StackAdaptor.Brackets | 01_STL_Containers/04_ContainerAdaptors/StackExample.cpp:221-236 | the characters `isBalanced` looks at are only the six bracket characters |
| StackAdaptor.ScanAppend | 01_STL_Containers/04_ContainerAdaptors/StackExample.cpp:221-236 | checking a + b is checking a and then b from the stack a leaves, failing as soon as either part fails |
| StackAdaptor.ScanBrackets | 01_STL_Containers/04_ContainerAdaptors/StackExample.cpp:221-236 | ignoring every character but brackets does not change the outcome |
| StackAdaptor.NestedScan | 01_STL_Containers/04_ContainerAdaptors/StackExample.cpp:221-236 | a properly nested bracket string, scanned on any stack, succeeds and restores the stack |
| StackAdaptor.Enclose | 01_STL_Containers/04_ContainerAdaptors/StackExample.cpp:228-231 | a matching pair around a nested string, followed by a nested string, is nested |
| StackAdaptor.InsertPair | 01_STL_Containers/04_ContainerAdaptors/StackExample.cpp:228-231 | inserting a matching pair anywhere in a nested string keeps it nested |
| StackAdaptor.ScanNested | 01_STL_Containers/04_ContainerAdaptors/StackExample.cpp:221-238 | a scan that ends with an empty stack started from a stack whose brackets, followed by the input's, are properly nested |
| StackAdaptor.BalancedIffNested | 01_STL_Containers/04_ContainerAdaptors/StackExample.cpp:218-239 | `isBalanced` accepts a string exactly when its brackets are properly nested |
| StackAdaptor.IsBalanced | 01_STL_Containers/04_ContainerAdaptors/StackExample.cpp:218-239 | `isBalanced` with its early returns answers true exactly when the scan ends with an empty stack, i.e. exactly when the brackets are properly nested |
| StackAdaptor.ScanFromRest | 01_STL_Containers/04_ContainerAdaptors/StackExample.cpp:221-236 | the loop's scan from position i is the scan of the rest of the string |
| StackAdaptor.ScanFromStart | 01_STL_Containers/04_ContainerAdaptors/StackExample.cpp:218-239 | a scan from position 0 with an empty stack ending empty is the balance condition |
| StackAdaptor.BalancedExamples | 01_STL_Containers/04_ContainerAdaptors/StackExample.cpp:242-246 | "((()))", "({[]})" and "{[()]}" are balanced |
| StackAdaptor.UnbalancedExamples | 01_STL_Containers/04_ContainerAdaptors/StackExample.cpp:244-247 | "(()", "({[}])" and "((])" are not |
| StackAdaptor.BracketsDemo | 01_STL_Containers/04_ContainerAdaptors/StackExample.cpp:241-248 | the six test cases give true, true, false, false, true, false |
| DequeDemo.MaxOf | 01_STL_Containers/01_SequenceContainers/DequeExample.cpp:200-202 | the maximum of a non-empty window is one of its elements and no element exceeds it |
| DequeDemo.MaxOfUnique | 01_STL_Containers/01_SequenceContainers/DequeExample.cpp:200-202 | an element of the window that no element exceeds is its maximum |
| DequeDemo.FrontIsMax | 01_STL_Containers/01_SequenceContainers/DequeExample.cpp:186-204 | when the deque holds increasing indices of decreasing values and every skipped index between them holds a value no larger than the next kept one, the front's value is the largest from the window start to the back |
| DequeDemo.PopFrontGaps | 01_STL_Containers/01_SequenceContainers/DequeExample.cpp:188-190 | popping the front keeps the skipped-value property, with the window start moved past the old front |
| DequeDemo.RaiseLo | 01_STL_Containers/01_SequenceContainers/DequeExample.cpp:188-190 | the skipped-value property survives moving the window start forward |
| DequeDemo.PopBackGaps | 01_STL_Containers/01_SequenceContainers/DequeExample.cpp:193-195 | popping a back index whose value is at most `data[i]` leaves every skipped index before i, back to the window start, at most `data[i]` |
| DequeDemo.PrefixKeeps | 01_STL_Containers/01_SequenceContainers/DequeExample.cpp:193-195 | any prefix of the deque keeps increasing indices, decreasing values and the skipped-value property |
| DequeDemo.PushGaps | 01_STL_Containers/01_SequenceContainers/DequeExample.cpp:197 | pushing i after indices whose skipped values are all at most `data[i]` keeps the skipped-value property |
| DequeDemo.DropExpired | 01_STL_Containers/01_SequenceContainers/DequeExample.cpp:188-190 | the first inner loop pops at most the front, which then lies inside the window ending at i |
| DequeDemo.DropSmaller | 01_STL_Containers/01_SequenceContainers/DequeExample.cpp:193-195 | the second inner loop leaves a prefix of the deque whose last value exceeds `data[i]`, every index it dropped holding a value at most `data[i]` |
| DequeDemo.PushWindow | 01_STL_Containers/01_SequenceContainers/DequeExample.cpp:197 | pushing i restores the deque invariant for the window ending at i |
| DequeDemo.ReportMax | 01_STL_Containers/01_SequenceContainers/DequeExample.cpp:200-202 | once the first window is complete, the value at the front index is the maximum of the window `[i - k + 1, i]` |
| DequeDemo.Advance | 01_STL_Containers/01_SequenceContainers/DequeExample.cpp:187-197 | one iteration of the outer loop keeps the deque invariant and leaves the front inside the window |
| DequeDemo.SlidingWindowMax | 01_STL_Containers/01_SequenceContainers/DequeExample.cpp:186-204 | reports exactly `n - k + 1` maxima, none when the data are shorter than k, and the j-th is the maximum of `data[j..j + k]` |
| DequeDemo.Report | 01_STL_Containers/01_SequenceContainers/DequeExample.cpp:200-202 | appending the maximum of the window ending at i extends the list of reported window maxima by one |
| DequeDemo.ThreeMax | 01_STL_Containers/01_SequenceContainers/DequeExample.cpp:177 | an element of a window of 3 no smaller than the other two is its maximum |
| DequeDemo.DemoMaxima | 01_STL_Containers/01_SequenceContainers/DequeExample.cpp:176-177 | the six windows of size 3 of 1 3 -1 -3 5 3 6 7 have maxima 3 3 5 5 6 7 |
| DequeDemo.SlidingWindowDemo | 01_STL_Containers/01_SequenceContainers/DequeExample.cpp:172-207 | `example5_SlidingWindowPattern` prints the maxima 3, 3, 5, 5, 6, 7 |
| DequeDemo.Spawns | 01_STL_Containers/01_SequenceContainers/DequeExample.cpp:238-241 | the spawned tasks are each "Verify database integrity", at most one per processed task |
| DequeDemo.SpawnsAppend | 01_STL_Containers/01_SequenceContainers/DequeExample.cpp:238-241 | the tasks spawned by a + b are those spawned by a followed by those spawned by b |
| DequeDemo.SpawnsOfSpawns | 01_STL_Containers/01_SequenceContainers/DequeExample.cpp:238-241 | a spawned task spawns nothing, so processing ends |
| DequeDemo.TaskStep | 01_STL_Containers/01_SequenceContainers/DequeExample.cpp:232-242 | one iteration keeps "processed tasks followed by the queue equal the initial queue followed by the spawned tasks", and decreases the remaining work |
| DequeDemo.TasksDone | 01_STL_Containers/01_SequenceContainers/DequeExample.cpp:232-242 | when the queue is empty, the processed tasks are the initial ones followed by the tasks those spawn |
| DequeDemo.ProcessTasks | 01_STL_Containers/01_SequenceContainers/DequeExample.cpp:232-242 | the loop processes every queued task in order and then each spawned "Verify database integrity" |
| DequeDemo.SchedulerDemo | 01_STL_Containers/01_SequenceContainers/DequeExample.cpp:216-245 | the emergency task first, then "Process data", "Send email", "Update database" and the verification it spawns |
| QueueDemo.SpawnedBy | 01_STL_Containers/04_ContainerAdaptors/QueueExample.cpp:119-123 | the tasks spawned by processed tasks are each task 5 "Verify email sent", at most one per processed task |
| QueueDemo.ProcessTasks | 01_STL_Containers/04_ContainerAdaptors/QueueExample.cpp:111-124 | processes at most `limit` tasks and stops early only when the queue runs empty; the processed tasks followed by those left are the initial queue followed by the tasks the processed ones spawned |
| QueueDemo.ServeStep | 01_STL_Containers/04_ContainerAdaptors/QueueExample.cpp:113-123 | one iteration (pop the front, process it, push what it spawns) keeps that equation |
| QueueDemo.ThreeProcessed | 01_STL_Containers/04_ContainerAdaptors/QueueExample.cpp:112 | with four tasks queued, the loop bounded by 3 processes exactly 3 |
| QueueDemo.DemoSpawned | 01_STL_Containers/04_ContainerAdaptors/QueueExample.cpp:120-121 | of the first three tasks only task 2 spawns, so exactly one follow-up is queued |
| QueueDemo.TaskOutcome | 01_STL_Containers/04_ContainerAdaptors/QueueExample.cpp:99-126 | any run of the bounded loop on the demo queue processes tasks 1, 2, 3 and leaves task 4 and the follow-up |
| QueueDemo.TaskDemo | 01_STL_Containers/04_ContainerAdaptors/QueueExample.cpp:99-126 | `example3_TaskScheduler` prints tasks 1, 2, 3 and leaves 2 tasks, "Generate report" and "Verify email sent" |
| QueueDemo.NeverEntered | 01_STL_Containers/04_ContainerAdaptors/QueueExample.cpp:139-147 | a vertex that is no one's child is reachable only from itself |
| QueueDemo.TreeReach | 01_STL_Containers/04_ContainerAdaptors/QueueExample.cpp:139-147 | in the demo tree, exactly nodes 1 to 6 are reachable from node 1 (node 0 is unused) |
| QueueDemo.TreeBfsOrder | 01_STL_Containers/04_ContainerAdaptors/QueueExample.cpp:139-172 | the reference breadth-first order of the demo tree from node 1 is 1 2 3 4 5 6 |
| QueueDemo.TreeBfsDemo | 01_STL_Containers/04_ContainerAdaptors/QueueExample.cpp:149-172 | the BFS from 1 prints 1 2 3 4 5 6: six nodes, 1 first, each of 1 to 6 exactly once |
| QueueDemo.TotalPagesAppend | 01_STL_Containers/04_ContainerAdaptors/QueueExample.cpp:238 | the pages of two consecutive runs of jobs add up |
| QueueDemo.Documents | 01_STL_Containers/04_ContainerAdaptors/QueueExample.cpp:237 | one printed name per job, in queue order |
| QueueDemo.LongJobs | 01_STL_Containers/04_ContainerAdaptors/QueueExample.cpp:241-243 | the flagged jobs are exactly the queued jobs of more than 20 pages |
| QueueDemo.PrintAll | 01_STL_Containers/04_ContainerAdaptors/QueueExample.cpp:230-244 | prints every document in queue order, flags the long jobs in order, and totals all pages |
| QueueDemo.PrintNext | 01_STL_Containers/04_ContainerAdaptors/QueueExample.cpp:233-244 | one iteration prints the next document, flags it when long, and adds its pages |
| QueueDemo.PrintStep | 01_STL_Containers/04_ContainerAdaptors/QueueExample.cpp:233-244 | the printed names, flagged jobs and total of a queue with one more job at the end |
| QueueDemo.PrintTotals | 01_STL_Containers/04_ContainerAdaptors/QueueExample.cpp:220-226 | the four demo jobs print in order, only "Presentation.pptx" is long, and the total is 38 pages |
| QueueDemo.PrintDemo | 01_STL_Containers/04_ContainerAdaptors/QueueExample.cpp:212-250 | `example6_PrintQueue` prints the four documents, flags "Presentation.pptx" and reports 38 pages |
| PriorityDemo.Best | 01_STL_Containers/04_ContainerAdaptors/PriorityQueueExample.cpp:150 | a non-empty heap has an element of the highest rank |
| PriorityDemo.Top | 01_STL_Containers/04_ContainerAdaptors/PriorityQueueExample.cpp:150 | `top()` returns an element of the heap that no other element outranks |
| PriorityDemo.AppendLowest | 01_STL_Containers/04_ContainerAdaptors/PriorityQueueExample.cpp:149-153 | appending an element ranked no higher than all before it keeps the popped sequence in rank order |
| PriorityDemo.Drain | 01_STL_Containers/04_ContainerAdaptors/PriorityQueueExample.cpp:149-153 | popping until empty yields every element exactly as many times as it was pushed, in non-increasing rank |
| PriorityDemo.SameRanks | 01_STL_Containers/04_ContainerAdaptors/PriorityQueueExample.cpp:149-153 | any two drains of the same heap agree on the rank at every position; only ties can come out in different orders |
| PriorityDemo.DropBoth | 01_STL_Containers/04_ContainerAdaptors/PriorityQueueExample.cpp:149-153 | removing the same element from two rank-ordered permutations leaves rank-ordered permutations of each other |
| PriorityDemo.DropFront | 01_STL_Containers/04_ContainerAdaptors/PriorityQueueExample.cpp:150-151 | after the first pop the rest is the heap less that element, still rank-ordered |
| PriorityDemo.LocateHead | 01_STL_Containers/04_ContainerAdaptors/PriorityQueueExample.cpp:149-153 | the first element of one drain appears in any other drain, whose first element has the same rank |
| PriorityDemo.RanksAfterDrop | 01_STL_Containers/04_ContainerAdaptors/PriorityQueueExample.cpp:149-153 | two drains whose remainders agree in rank after dropping a shared top element agree in rank everywhere |
| PriorityDemo.DropAt | 01_STL_Containers/04_ContainerAdaptors/PriorityQueueExample.cpp:149-153 | removing any element of a rank-ordered sequence leaves the rest rank-ordered, one copy fewer |
| PriorityDemo.SameOrder | 01_STL_Containers/04_ContainerAdaptors/PriorityQueueExample.cpp:149-153 | when all ranks differ, the drain order is unique |
| PriorityDemo.EventDemo | 01_STL_Containers/04_ContainerAdaptors/PriorityQueueExample.cpp:128-156 | `operator<` reverses time, so events come out soonest first: 5, 15, 30, 60, 120 minutes |
| PriorityDemo.EventsExpected | 01_STL_Containers/04_ContainerAdaptors/PriorityQueueExample.cpp:142-146 | the chronological order is a permutation of the five pushed events with strictly falling rank |
| PriorityDemo.TaskDemo | 01_STL_Containers/04_ContainerAdaptors/PriorityQueueExample.cpp:265-295 | the two priority-5 tasks come first, in an order left open by the tie, then "Code review", "Write docs", "Coffee" |
| PriorityDemo.TasksExpected | 01_STL_Containers/04_ContainerAdaptors/PriorityQueueExample.cpp:279-283 | one priority order of the five tasks is rank-ordered and a permutation of what was pushed |
| PriorityDemo.TaskTail | 01_STL_Containers/04_ContainerAdaptors/PriorityQueueExample.cpp:287-292 | any drain agreeing in rank with that order has the two priority-5 tasks first and the other three in order |
| PriorityDemo.PairLeft | 01_STL_Containers/04_ContainerAdaptors/PriorityQueueExample.cpp:287-292 | the first two entries are then the two priority-5 tasks |
| PriorityDemo.KeepLargest | 01_STL_Containers/04_ContainerAdaptors/PriorityQueueExample.cpp:175-180 | the min-heap of size k keeps k elements of the data (all of them if fewer), none smaller than any dropped |
| PriorityDemo.PushOnly | 01_STL_Containers/04_ContainerAdaptors/PriorityQueueExample.cpp:176 | pushing while the heap has room keeps the invariant of the loop |
| PriorityDemo.PopSmallest | 01_STL_Containers/04_ContainerAdaptors/PriorityQueueExample.cpp:176-179 | pushing and then popping the smallest when the size exceeds k keeps the invariant |
| PriorityDemo.TopK | 01_STL_Containers/04_ContainerAdaptors/PriorityQueueExample.cpp:175-192 | prints min(k, n) elements of the data, in descending order, none smaller than any element left out |
| PriorityDemo.TopKDemo | 01_STL_Containers/04_ContainerAdaptors/PriorityQueueExample.cpp:162-196 | `example5_TopKElements` prints 42 37 28 |
| PriorityDemo.DemoTop | 01_STL_Containers/04_ContainerAdaptors/PriorityQueueExample.cpp:165-166 | for the demo data and k = 3 those are exactly 42, 37, 28 |
| PriorityDemo.SortedDemo | 01_STL_Containers/04_ContainerAdaptors/PriorityQueueExample.cpp:165 | the demo data sorted downwards, as a largest-first order |
| PriorityDemo.Descends | 01_STL_Containers/04_ContainerAdaptors/PriorityQueueExample.cpp:190-192 | a non-increasing sequence is in largest-first order |
| PriorityDemo.FirstThree | 01_STL_Containers/04_ContainerAdaptors/PriorityQueueExample.cpp:165-166 | the first three of the sorted data are 42, 37, 28 |
| PriorityDemo.SortDown | 01_STL_Containers/04_ContainerAdaptors/PriorityQueueExample.cpp:184-187 | every multiset has a rank-ordered arrangement |
| PriorityDemo.PrependTop | 01_STL_Containers/04_ContainerAdaptors/PriorityQueueExample.cpp:184-187 | a top element followed by an ordered arrangement of the rest is an ordered arrangement |
| PriorityDemo.TopIsPrefix | 01_STL_Containers/04_ContainerAdaptors/PriorityQueueExample.cpp:175-192 | the kept elements, largest first, are a prefix of the whole data sorted largest first |
| PriorityDemo.JoinRest | 01_STL_Containers/04_ContainerAdaptors/PriorityQueueExample.cpp:175-192 | the kept elements followed by the dropped ones, each largest first, are the data largest first |
| PriorityDemo.Concatenated | 01_STL_Containers/04_ContainerAdaptors/PriorityQueueExample.cpp:149-153 | two rank-ordered runs, the second ranked no higher than the first, join into a rank-ordered sequence |
| PriorityDemo.SameValues | 01_STL_Containers/04_ContainerAdaptors/PriorityQueueExample.cpp:165 | the sorted sequence holds the demo data |
| PriorityDemo.Falls | 01_STL_Containers/04_ContainerAdaptors/PriorityQueueExample.cpp:165 | the sorted demo data strictly fall |
| PriorityDemo.Descending | 01_STL_Containers/04_ContainerAdaptors/PriorityQueueExample.cpp:190-192 | a strictly falling sequence is largest-first |
| PriorityDemo.MergeSorted | 01_STL_Containers/04_ContainerAdaptors/PriorityQueueExample.cpp:221-245 | the merge outputs every element of every array, with its multiplicity, and in ascending order when every array is sorted |
| PriorityDemo.FirstEntries | 01_STL_Containers/04_ContainerAdaptors/PriorityQueueExample.cpp:225-229 | the heap starts with the first entry of each non-empty array |
| PriorityDemo.MergeStep | 01_STL_Containers/04_ContainerAdaptors/PriorityQueueExample.cpp:233-244 | one iteration keeps the merge invariant: the heap holds the next unread entry of each array, and within sorted arrays nothing output exceeds what is left |
| PriorityDemo.Done | 01_STL_Containers/04_ContainerAdaptors/PriorityQueueExample.cpp:232-245 | when the heap is empty every entry has been output |
| PriorityDemo.Start | 01_STL_Containers/04_ContainerAdaptors/PriorityQueueExample.cpp:225-229 | the invariant holds before the loop |
| PriorityDemo.Untouched | 01_STL_Containers/04_ContainerAdaptors/PriorityQueueExample.cpp:225-229 | before the loop nothing has been read |
| PriorityDemo.Advance | 01_STL_Containers/04_ContainerAdaptors/PriorityQueueExample.cpp:233-244 | taking an entry off the heap and pushing its successor moves that array on by one, and the values read grow by that entry |
| PriorityDemo.MovedOn | 01_STL_Containers/04_ContainerAdaptors/PriorityQueueExample.cpp:238 | the successor index stays within the array |
| PriorityDemo.HeapAfter | 01_STL_Containers/04_ContainerAdaptors/PriorityQueueExample.cpp:233-244 | after pop and push the heap holds the next unread entry of each array |
| PriorityDemo.SwapHeads | 01_STL_Containers/04_ContainerAdaptors/PriorityQueueExample.cpp:238-244 | the pending entries after the step, with the popped one, are those before it with its successor |
| PriorityDemo.Heads | 01_STL_Containers/04_ContainerAdaptors/PriorityQueueExample.cpp:238-244 | an array's pending entry is the popped element before the step and its successor, if any, after it |
| PriorityDemo.PendingEntry | 01_STL_Containers/04_ContainerAdaptors/PriorityQueueExample.cpp:227 | every pending entry holds the value at the array's current position |
| PriorityDemo.OnePerArray | 01_STL_Containers/04_ContainerAdaptors/PriorityQueueExample.cpp:225-244 | the heap holds at most one entry per array, so at most k entries |
| PriorityDemo.SameArraySameEntry | 01_STL_Containers/04_ContainerAdaptors/PriorityQueueExample.cpp:225-244 | two pending entries from the same array are the same entry |
| PriorityDemo.PendingFrame | 01_STL_Containers/04_ContainerAdaptors/PriorityQueueExample.cpp:238-244 | arrays whose positions did not move keep their pending entries |
| PriorityDemo.PendingStep | 01_STL_Containers/04_ContainerAdaptors/PriorityQueueExample.cpp:238-244 | moving one array on changes only that array's pending entry |
| PriorityDemo.PendingAt | 01_STL_Containers/04_ContainerAdaptors/PriorityQueueExample.cpp:238-244 | the step's change at the array itself |
| PriorityDemo.PendingLater | 01_STL_Containers/04_ContainerAdaptors/PriorityQueueExample.cpp:238-244 | the step's change survives the arrays after it |
| PriorityDemo.TakenStep | 01_STL_Containers/04_ContainerAdaptors/PriorityQueueExample.cpp:235 | moving one array on adds exactly its current value to what has been output |
| PriorityDemo.TakenFrame | 01_STL_Containers/04_ContainerAdaptors/PriorityQueueExample.cpp:235 | positions that did not move contribute the same values |
| PriorityDemo.Appended | 01_STL_Containers/04_ContainerAdaptors/PriorityQueueExample.cpp:233-235 | within sorted arrays the popped minimum is at least everything output before and at most everything still pending |
| PriorityDemo.Exhausted | 01_STL_Containers/04_ContainerAdaptors/PriorityQueueExample.cpp:232 | an empty heap means every array has been read to its end |
| PriorityDemo.Within | 01_STL_Containers/04_ContainerAdaptors/PriorityQueueExample.cpp:232-245 | what has been output is part of the input, and all of it once every array is read |
| PriorityDemo.DemoArrays | 01_STL_Containers/04_ContainerAdaptors/PriorityQueueExample.cpp:205-209 | the demo arrays are sorted and together hold 1 to 9 |
| PriorityDemo.SortedArrays | 01_STL_Containers/04_ContainerAdaptors/PriorityQueueExample.cpp:205-209 | each demo array is sorted |
| PriorityDemo.FlattenDemo | 01_STL_Containers/04_ContainerAdaptors/PriorityQueueExample.cpp:205-209 | the demo arrays laid end to end |
| PriorityDemo.Merged | 01_STL_Containers/04_ContainerAdaptors/PriorityQueueExample.cpp:254-256 | an ascending arrangement of 1 to 9 is 1 2 3 4 5 6 7 8 9 |
| PriorityDemo.Rises | 01_STL_Containers/04_ContainerAdaptors/PriorityQueueExample.cpp:254-256 | 1 to 9 strictly rise |
| PriorityDemo.Rising | 01_STL_Containers/04_ContainerAdaptors/PriorityQueueExample.cpp:217 | a strictly rising sequence is rank-ordered for the min-heap |
| PriorityDemo.MergeDemo | 01_STL_Containers/04_ContainerAdaptors/PriorityQueueExample.cpp:202-259 | the merged array printed is 1 2 3 4 5 6 7 8 9 |
| RecentFiles.Without | 01_STL_Containers/01_SequenceContainers/ListExample.cpp:291 | `remove(file)` leaves no copy of the file, and changes nothing when it is absent |
| RecentFiles.WithoutKeeps | 01_STL_Containers/01_SequenceContainers/ListExample.cpp:291 | removal keeps every other file, in its original order |
| RecentFiles.WithoutMembers | 01_STL_Containers/01_SequenceContainers/ListExample.cpp:291 | removal adds nothing: what is left was there before and is not the removed file |
| RecentFiles.WithoutDistinct | 01_STL_Containers/01_SequenceContainers/ListExample.cpp:291 | on a list without duplicates removal keeps it duplicate-free and shortens it by one exactly when the file was present |
| RecentFiles.NoDuplicatesTail | 01_STL_Containers/01_SequenceContainers/ListExample.cpp:294 | the rest of a duplicate-free list is duplicate-free and does not hold its first entry |
| RecentFiles.NoDuplicatesCons | 01_STL_Containers/01_SequenceContainers/ListExample.cpp:294 | putting a file not yet listed in front keeps the list duplicate-free |
| RecentFiles.NoDuplicatesPrefix | 01_STL_Containers/01_SequenceContainers/ListExample.cpp:297-299 | dropping entries from the back keeps the list duplicate-free |
| RecentFiles.PrefixSubsequence | 01_STL_Containers/01_SequenceContainers/ListExample.cpp:297-299 | dropping entries from the back keeps the order of the rest |
| RecentFiles.Added | 01_STL_Containers/01_SequenceContainers/ListExample.cpp:289-300 | after `addRecentFile(f)` f is first and appears nowhere else |
| RecentFiles.AddedKeepsOrder | 01_STL_Containers/01_SequenceContainers/ListExample.cpp:289-300 | the files after f are some of the old ones in their old order |
| RecentFiles.AddedValid | 01_STL_Containers/01_SequenceContainers/ListExample.cpp:289-300 | the list stays duplicate-free and at most 5 long |
| RecentFiles.ReAdded | 01_STL_Containers/01_SequenceContainers/ListExample.cpp:289-300 | reopening a listed file keeps the same length and the same set of files |
| RecentFiles.NewWithRoom | 01_STL_Containers/01_SequenceContainers/ListExample.cpp:289-300 | a new file while there is room goes in front of the whole list |
| RecentFiles.NewWhenFull | 01_STL_Containers/01_SequenceContainers/ListExample.cpp:297-299 | a new file on a full list goes in front and the last, least recent, file is dropped |
| RecentFiles.MovedToFront | 01_STL_Containers/01_SequenceContainers/ListExample.cpp:289-300 | a listed file on a list with room moves to the front, the others keeping their order |
| RecentFiles.WithoutSplit | 01_STL_Containers/01_SequenceContainers/ListExample.cpp:291 | removing the one copy of f from a + [f] + b gives a + b |
| RecentFiles.RecentList.constructor | 01_STL_Containers/01_SequenceContainers/ListExample.cpp:285 | the list starts empty |
| RecentFiles.RecentList.AddRecentFile | 01_STL_Containers/01_SequenceContainers/ListExample.cpp:289-300 | the remove, push-front and bounded pop-back sequence, keeping the list duplicate-free and at most 5 long |
| RecentFiles.FirstAdditions | 01_STL_Containers/01_SequenceContainers/ListExample.cpp:303-306 | the lists after each of the first four calls |
| RecentFiles.LastAdditions | 01_STL_Containers/01_SequenceContainers/ListExample.cpp:307-309 | the lists after each of the last three calls, the last dropping "image.png" |
| RecentFiles.Example | 01_STL_Containers/01_SequenceContainers/ListExample.cpp:302-312 | the demo ends with document2.txt, audio.mp3, video.mp4, document1.txt, data.csv, and "image.png" has been dropped |
| Words.RunLength | 01_STL_Containers/02_AssociativeContainers/MapExample.cpp:239-247 | the characters before the first blank: none of them is a blank, and the one after them, if any, is |
| Words.Tokens | 01_STL_Containers/02_AssociativeContainers/MapExample.cpp:238-251 | the tokenizer yields only non-empty words without blanks |
| Words.Pending | 01_STL_Containers/02_AssociativeContainers/MapExample.cpp:249-251 | the final flush yields one word when the buffer is non-empty and none when it is empty |
| Words.RunOf | 01_STL_Containers/02_AssociativeContainers/MapExample.cpp:239-247 | a word followed by a blank or the end is one run |
| Words.FlushAtBlank | 01_STL_Containers/02_AssociativeContainers/MapExample.cpp:240-244 | a blank after the buffered word flushes it, if non-empty, and scanning continues after the blank |
| Words.FlushAtEnd | 01_STL_Containers/02_AssociativeContainers/MapExample.cpp:249-251 | at the end of the text the buffered word is flushed, if non-empty |
| Words.ExtendWord | 01_STL_Containers/02_AssociativeContainers/MapExample.cpp:245-246 | a non-blank character extends the buffered word, which stays blank-free |
| Words.ScanStart | 01_STL_Containers/02_AssociativeContainers/MapExample.cpp:238 | the loop begins with an empty buffer and no words |
| Words.ScanBlank | 01_STL_Containers/02_AssociativeContainers/MapExample.cpp:240-244 | one iteration on a blank keeps the loop invariant: the words so far, then the buffer, then the tokens of the rest, are the tokens of the whole text |
| Words.ScanOther | 01_STL_Containers/02_AssociativeContainers/MapExample.cpp:245-246 | one iteration on any other character keeps that invariant |
| Words.ScanEnd | 01_STL_Containers/02_AssociativeContainers/MapExample.cpp:249-251 | after the loop and the final flush the words emitted are exactly the tokens of the text |
| Words.TokensOfUnwords | 01_STL_Containers/02_AssociativeContainers/MapExample.cpp:234 | tokenizing words joined by single blanks gives back exactly those words |
| Words.UnwordsAppend | 01_STL_Containers/02_AssociativeContainers/MapExample.cpp:234 | joining two non-empty word lists is joining each and putting one blank between |
| Words.LeadingBlanks | 01_STL_Containers/02_AssociativeContainers/MapExample.cpp:240-241 | a leading blank flushes an empty buffer and so yields no word |
| Words.LessIrreflexive | 01_STL_Containers/02_AssociativeContainers/MapExample.cpp:254 | `std::string` `<` is irreflexive |
| Words.LessTransitive | 01_STL_Containers/02_AssociativeContainers/MapExample.cpp:254 | `std::string` `<` is transitive |
| Words.LessTotal | 01_STL_Containers/02_AssociativeContainers/MapExample.cpp:254 | any two different strings are ordered one way or the other |
| Words.LessAsymmetric | 01_STL_Containers/02_AssociativeContainers/MapExample.cpp:254 | `std::string` `<` is asymmetric |
| MapOps.Subscript | 01_STL_Containers/02_AssociativeContainers/MapExample.cpp:66-67 | `operator[]` returns an existing entry unchanged; a missing key is inserted with the value-initialised default, growing the map by one; other entries are untouched |
| MapOps.Insert | 01_STL_Containers/02_AssociativeContainers/MapExample.cpp:91-96 | `insert` succeeds exactly when the key is absent, then adds one entry; an existing key keeps its value and the map is unchanged |
| MapOps.At | 01_STL_Containers/02_AssociativeContainers/MapExample.cpp:72-73 | `at` gives the stored value for a present key and throws exactly for a missing one |
| MapOps.Bump | 01_STL_Containers/02_AssociativeContainers/MapExample.cpp:242 | `m[w]++` sets w to its old count plus one, starting from 0, and leaves other keys alone |
| MapOps.TotalWithout | 01_STL_Containers/02_AssociativeContainers/MapExample.cpp:242 | the sum of counts is one key's count plus the sum of the rest |
| MapOps.RemoveOne | 01_STL_Containers/02_AssociativeContainers/MapExample.cpp:242 | removing a present key shrinks the map by one and keeps the other entries |
| MapOps.RemoveBoth | 01_STL_Containers/02_AssociativeContainers/MapExample.cpp:242 | removing two keys does not depend on the order |
| MapOps.TotalBump | 01_STL_Containers/02_AssociativeContainers/MapExample.cpp:242 | each `m[w]++` adds exactly one to the sum of counts |
| MapOps.TotalAtLeastSize | 01_STL_Containers/02_AssociativeContainers/MapExample.cpp:242 | when every count is positive the sum is at least the number of keys |
| MapOps.TotalOnes | 01_STL_Containers/02_AssociativeContainers/MapExample.cpp:242 | positive counts summing to the number of keys are all 1 |
| MapOps.CountsStart | 01_STL_Containers/02_AssociativeContainers/MapExample.cpp:235 | an empty map counts an empty word list |
| MapOps.CountStep | 01_STL_Containers/02_AssociativeContainers/MapExample.cpp:242 | `m[w]++` turns the map that counts a word list into the one that counts it with w appended |
| MapOps.TallyBump | 01_STL_Containers/02_AssociativeContainers/MapExample.cpp:242 | `m[w]++` keeps "each key counts its occurrences and the counts sum to the words seen" |
| MapOps.TallyPositive | 01_STL_Containers/02_AssociativeContainers/MapExample.cpp:242 | every stored count is at least 1, and the map is empty exactly when no word was seen |
| MapDemo.CountWords | 01_STL_Containers/02_AssociativeContainers/MapExample.cpp:235-251 | the tokenize-and-count loop leaves, for every token of the text and no other key, its number of occurrences, and the counts add up to the number of tokens |
| MapDemo.MostFrequentUnique | 01_STL_Containers/02_AssociativeContainers/MapExample.cpp:259-262 | at most one key has the largest count and the smallest key among those with it |
| MapDemo.MostFrequent | 01_STL_Containers/02_AssociativeContainers/MapExample.cpp:259-267 | `max_element` finds nothing exactly on an empty map, and otherwise the key with the largest count, the alphabetically first on a tie |
| MapDemo.Overtakes | 01_STL_Containers/02_AssociativeContainers/MapExample.cpp:259-262 | a key with a larger count, or an equal count and a smaller name, takes the lead over the keys seen so far |
| MapDemo.StaysAhead | 01_STL_Containers/02_AssociativeContainers/MapExample.cpp:259-262 | any other key leaves the leader in front |
| MapDemo.FrontJoined | 01_STL_Containers/02_AssociativeContainers/MapExample.cpp:234 | the first five words of the demo text joined by blanks |
| MapDemo.BackJoined | 01_STL_Containers/02_AssociativeContainers/MapExample.cpp:234 | the last six words joined by blanks |
| MapDemo.TextWords | 01_STL_Containers/02_AssociativeContainers/MapExample.cpp:234 | the eleven words listed are each a token |
| MapDemo.TextJoined | 01_STL_Containers/02_AssociativeContainers/MapExample.cpp:234 | joining the eleven words by blanks gives the demo text |
| MapDemo.TextTokens | 01_STL_Containers/02_AssociativeContainers/MapExample.cpp:234-251 | the demo text tokenizes into the, quick, brown, fox, jumps, over, the, lazy, dog, the, fox |
| MapDemo.TextKeys | 01_STL_Containers/02_AssociativeContainers/MapExample.cpp:234 | the text has eight different words |
| MapDemo.TextRepeats | 01_STL_Containers/02_AssociativeContainers/MapExample.cpp:234 | "the" occurs 3 times and "fox" twice |
| MapDemo.FrontRepeats | 01_STL_Containers/02_AssociativeContainers/MapExample.cpp:234 | once each in the first five words |
| MapDemo.BackRepeats | 01_STL_Containers/02_AssociativeContainers/MapExample.cpp:234 | "the" twice and "fox" once in the last six |
| MapDemo.ExampleKeys | 01_STL_Containers/02_AssociativeContainers/MapExample.cpp:253-256 | a map tallying the demo words has exactly the eight words as keys |
| MapDemo.ExampleCounts | 01_STL_Containers/02_AssociativeContainers/MapExample.cpp:253-256 | the counts printed: the 3, fox 2, every other word 1 |
| MapDemo.OthersOnce | 01_STL_Containers/02_AssociativeContainers/MapExample.cpp:253-256 | when all counts are positive and they sum to two known counts plus one per other key, every other count is 1 |
| MapDemo.TheMostFrequent | 01_STL_Containers/02_AssociativeContainers/MapExample.cpp:264-266 | with those counts "the" is the most frequent word |
| MapDemo.WordFrequencyExample | 01_STL_Containers/02_AssociativeContainers/MapExample.cpp:231-270 | `example7_WordFrequencyCounter` prints the eight counts and reports "the" as most frequent |
| MapDemo.ElementAccessExample | 01_STL_Containers/02_AssociativeContainers/MapExample.cpp:59-76 | Math is 90; reading History inserts it with 0 and gives four entries; `at("Science")` is 85 and `at("Geography")` throws |
| MapDemo.InsertExample | 01_STL_Containers/02_AssociativeContainers/MapExample.cpp:88-96 | the first insert of key 1 succeeds, the second is refused, and key 1 still maps to "one" |
| MultisetDemo.InsertSorted | 01_STL_Containers/02_AssociativeContainers/MultisetExample.cpp:192 | `words.insert(word)` adds exactly one copy of the word to the stored words |
| MultisetDemo.SortedTail | 01_STL_Containers/02_AssociativeContainers/MultisetExample.cpp:192 | the rest of a sorted multiset is sorted and holds nothing smaller than its first word |
| MultisetDemo.InsertKeepsSorted | 01_STL_Containers/02_AssociativeContainers/MultisetExample.cpp:192 | insertion keeps the storage in non-decreasing `std::string` order |
| MultisetDemo.CollectWords | 01_STL_Containers/02_AssociativeContainers/MultisetExample.cpp:185-201 | the tokenize loop leaves the tokens of the text, each as often as it occurs, in sorted order |
| MultisetDemo.SortedGrouped | 01_STL_Containers/02_AssociativeContainers/MultisetExample.cpp:207-213 | in sorted storage all copies of a word are adjacent |
| MultisetDemo.RunEnd | 01_STL_Containers/02_AssociativeContainers/MultisetExample.cpp:210-212 | the end of the run of copies of x starting at j: all of them are x, and the next element, if any, is not |
| MultisetDemo.CopiesCount | 01_STL_Containers/02_AssociativeContainers/MultisetExample.cpp:210 | a run of copies of x counts that many x |
| MultisetDemo.CountPieces | 01_STL_Containers/02_AssociativeContainers/MultisetExample.cpp:210 | the count of x in the storage is the sum of its counts before, within and after a run |
| MultisetDemo.RunCount | 01_STL_Containers/02_AssociativeContainers/MultisetExample.cpp:210-212 | at the first copy of a word, `count(current)` is exactly the length of its run, so `advance(it, count)` lands on the next word |
| MultisetDemo.AfterRun | 01_STL_Containers/02_AssociativeContainers/MultisetExample.cpp:212 | no copy of the word appears after its run |
| MultisetDemo.NotBefore | 01_STL_Containers/02_AssociativeContainers/MultisetExample.cpp:209 | a word not yet met does not occur earlier |
| MultisetDemo.RunNext | 01_STL_Containers/02_AssociativeContainers/MultisetExample.cpp:212 | the element after the run is also one not met before |
| MultisetDemo.Copies | 01_STL_Containers/02_AssociativeContainers/MultisetExample.cpp:211 | a group expands to that many copies of its word |
| MultisetDemo.ExpandLength | 01_STL_Containers/02_AssociativeContainers/MultisetExample.cpp:215 | the groups expand to as many elements as their counts sum to |
| MultisetDemo.WalkStep | 01_STL_Containers/02_AssociativeContainers/MultisetExample.cpp:208-213 | one iteration advances by the word's count and keeps the walk invariant |
| MultisetDemo.NewGroup | 01_STL_Containers/02_AssociativeContainers/MultisetExample.cpp:209-211 | the new group has the word's full count, differs from the groups before, and starts after them |
| MultisetDemo.Advance | 01_STL_Containers/02_AssociativeContainers/MultisetExample.cpp:212 | the groups so far expand to exactly the storage walked so far |
| MultisetDemo.Frequencies | 01_STL_Containers/02_AssociativeContainers/MultisetExample.cpp:207-213 | the counts printed, expanded, give back the storage, and their sum is `words.size()` |
| MultisetDemo.WalkDone | 01_STL_Containers/02_AssociativeContainers/MultisetExample.cpp:207-213 | after the walk every group is one distinct word with its full count, met in storage order |
| MultisetDemo.GroupsAscending | 01_STL_Containers/02_AssociativeContainers/MultisetExample.cpp:204-213 | the words are printed in strictly ascending order |
| MultisetDemo.PickUp | 01_STL_Containers/02_AssociativeContainers/MultisetExample.cpp:224-227 | a strictly larger count makes the current word the most frequent |
| MultisetDemo.PickKeep | 01_STL_Containers/02_AssociativeContainers/MultisetExample.cpp:224 | a count not larger leaves the choice as it was |
| MultisetDemo.PickDone | 01_STL_Containers/02_AssociativeContainers/MultisetExample.cpp:218-229 | after the loop the choice is a word of the storage with the largest count, the smallest such word when sorted; empty storage gives "" and 0 |
| MultisetDemo.MostFrequentWord | 01_STL_Containers/02_AssociativeContainers/MultisetExample.cpp:218-229 | the strict-`>` loop returns a word with the largest count, and among equal counts the first, i.e. alphabetically smallest; "" and 0 for no words |
| MultisetDemo.TextTokens | 01_STL_Containers/02_AssociativeContainers/MultisetExample.cpp:184 | the demo text tokenizes into the map demo's eleven words and one more "jumps" |
| MultisetDemo.TextJoined | 01_STL_Containers/02_AssociativeContainers/MultisetExample.cpp:184 | those twelve words joined by blanks are the text |
| MultisetDemo.TextCounts | 01_STL_Containers/02_AssociativeContainers/MultisetExample.cpp:184 | every word but "the" occurs at most twice |
| MultisetDemo.WordFrequencyExample | 01_STL_Containers/02_AssociativeContainers/MultisetExample.cpp:181-234 | twelve words, counts summing to 12 in ascending word order, and "the" the most frequent with 3 |
| MultisetDemo.TheMostFrequent | 01_STL_Containers/02_AssociativeContainers/MultisetExample.cpp:231 | in any arrangement of the demo words, a word with the largest count is "the", with 3 |
| MultisetDemo.LettersStorage | 01_STL_Containers/02_AssociativeContainers/MultisetExample.cpp:85 | the sorted storage of the initializer list |
| MultisetDemo.LettersAscending | 01_STL_Containers/02_AssociativeContainers/MultisetExample.cpp:88 | the letters are stored in ascending order |
| MultisetDemo.AscendingApart | 01_STL_Containers/02_AssociativeContainers/MultisetExample.cpp:88 | in ascending storage any earlier letter is at most any later one |
| MultisetDemo.AscendingGrouped | 01_STL_Containers/02_AssociativeContainers/MultisetExample.cpp:93-101 | ascending storage keeps copies adjacent |
| MultisetDemo.LetterCounts | 01_STL_Containers/02_AssociativeContainers/MultisetExample.cpp:85 | a and b occur 3 times, c and d once |
| MultisetDemo.LetterGroups | 01_STL_Containers/02_AssociativeContainers/MultisetExample.cpp:93-101 | each group printed is one of ('a', 3), ('b', 3), ('c', 1), ('d', 1) |
| MultisetDemo.LetterFrequencies | 01_STL_Containers/02_AssociativeContainers/MultisetExample.cpp:82-104 | `example3_CountingOperations` prints groups that expand to the 8 letters, each one of a:3, b:3, c:1, d:1 |
| UnorderedMapDemo.ElementAccessExample | 01_STL_Containers/03_UnorderedContainers/UnorderedMapExample.cpp:49-64 | Math is 90; reading English inserts it with 0 and gives three entries; `at("Science")` is 85 and `at("History")` throws |
| UnorderedMapDemo.FrequencyExample | 01_STL_Containers/03_UnorderedContainers/UnorderedMapExample.cpp:110-135 | the same tokenize-and-count loop on the same text gives the 3, fox 2 and every other word 1 |
| UnorderedMapDemo.Span | 01_STL_Containers/03_UnorderedContainers/UnorderedMapExample.cpp:151-152 | the arguments a computed `fib(n)` stores: exactly 2 to n |
| UnorderedMapDemo.Extend | 01_STL_Containers/03_UnorderedContainers/UnorderedMapExample.cpp:152 | storing `fib(n)` in a correct cache of 2 to n - 1 gives a correct cache of 2 to n |
| UnorderedMapDemo.FibCache.constructor | 01_STL_Containers/03_UnorderedContainers/UnorderedMapExample.cpp:140 | the cache starts empty |
| UnorderedMapDemo.FibCache.Compute | 01_STL_Containers/03_UnorderedContainers/UnorderedMapExample.cpp:142-154 | `fib(n)` returns n for n <= 1; otherwise the Fibonacci number, from the cache when stored; an argument already covered leaves the cache as it was, and a larger one leaves exactly 2 to n cached, each with its Fibonacci number |
| UnorderedMapDemo.SpanSize | 01_STL_Containers/03_UnorderedContainers/UnorderedMapExample.cpp:157 | 2 to n are n - 1 arguments |
| UnorderedMapDemo.CacheSize | 01_STL_Containers/03_UnorderedContainers/UnorderedMapExample.cpp:157 | a correct cache of 2 to n has n - 1 entries |
| UnorderedMapDemo.FibTen | 01_STL_Containers/03_UnorderedContainers/UnorderedMapExample.cpp:156 | fib(10) is 55 |
| UnorderedMapDemo.CacheExample | 01_STL_Containers/03_UnorderedContainers/UnorderedMapExample.cpp:137-162 | the first `fib(10)` is 55 and leaves 9 cache entries; the second is 55 from the cache, which still has 9 |
| UnorderedSetDemo.Insert | 01_STL_Containers/03_UnorderedContainers/UnorderedSetExample.cpp:40-43 | `insert` reports success exactly when the element was absent; afterwards it is present, nothing else is added, and a failed insert changes nothing |
| UnorderedSetDemo.InsertExample | 01_STL_Containers/03_UnorderedContainers/UnorderedSetExample.cpp:33-45 | inserting 3 into {5, 2, 8, 1, 9} succeeds with six elements; inserting 5 is ignored |
| UnorderedSetDemo.PointExample | 01_STL_Containers/03_UnorderedContainers/UnorderedSetExample.cpp:145-156 | points equal by `operator==` are stored once: two points, and (3, 4) is found |
| UnorderedSetDemo.DetectDuplicates | 01_STL_Containers/03_UnorderedContainers/UnorderedSetExample.cpp:206-213 | `seen` ends as the distinct values, `duplicates` as every occurrence after a value's first, and the two sizes sum to the data size |
| UnorderedSetDemo.DetectStep | 01_STL_Containers/03_UnorderedContainers/UnorderedSetExample.cpp:207-211 | one iteration adds a new value to `seen` or a repeated one to `duplicates` |
| UnorderedSetDemo.DistinctStep | 01_STL_Containers/03_UnorderedContainers/UnorderedSetExample.cpp:207 | a value is in `seen` exactly when it occurred earlier |
| UnorderedSetDemo.RepeatsCount | 01_STL_Containers/03_UnorderedContainers/UnorderedSetExample.cpp:209 | a value occurring c times is reported c - 1 times |
| UnorderedSetDemo.DistinctAndRepeats | 01_STL_Containers/03_UnorderedContainers/UnorderedSetExample.cpp:215-216 | distinct values plus reported duplicates are all the elements |
| UnorderedSetDemo.RepeatsSnoc | 01_STL_Containers/03_UnorderedContainers/UnorderedSetExample.cpp:206-213 | the duplicates of data with one more element at the end |
| UnorderedSetDemo.DataRepeats | 01_STL_Containers/03_UnorderedContainers/UnorderedSetExample.cpp:197 | the demo data's duplicates are 2, 3, 1 |
| UnorderedSetDemo.DuplicateExample | 01_STL_Containers/03_UnorderedContainers/UnorderedSetExample.cpp:194-218 | 7 unique values, and duplicates 2, 3, 1 in that order |
| RuleOfFive.CopyOf | 04_OOP/05_SpecialMemberFunctions/RuleOfFiveExample.cpp:15 | the element-by-element copy into new storage holds the same ints |
| RuleOfFive.Buffer.constructor | 04_OOP/05_SpecialMemberFunctions/RuleOfFiveExample.cpp:12 | the default buffer has no storage and size 0 |
| RuleOfFive.Buffer.Sized | 04_OOP/05_SpecialMemberFunctions/RuleOfFiveExample.cpp:13 | new storage of sz ints |
| RuleOfFive.Buffer.Copy | 04_OOP/05_SpecialMemberFunctions/RuleOfFiveExample.cpp:15 | same size and same ints in storage of its own; no storage exactly when the source is empty |
| RuleOfFive.Buffer.CopyAssign | 04_OOP/05_SpecialMemberFunctions/RuleOfFiveExample.cpp:16-18 | on another buffer: same size and ints in new storage, the source untouched; on itself: nothing changes |
| RuleOfFive.Buffer.Move | 04_OOP/05_SpecialMemberFunctions/RuleOfFiveExample.cpp:19 | takes the source's storage and size and leaves the source empty |
| RuleOfFive.Buffer.MoveAssign | 04_OOP/05_SpecialMemberFunctions/RuleOfFiveExample.cpp:20 | on another buffer: takes its storage and size and empties it; on itself: nothing changes |
| RuleOfFive.Example | 04_OOP/05_SpecialMemberFunctions/RuleOfFiveExample.cpp:23 | a ends empty after the move, b holds 10 ints in storage of its own, c holds 5 |
| ExceptionSafety.Vector.constructor | 09_ExceptionHandling/03_ExceptionSafety/ExceptionSafetyExample.cpp:25 | a vector with the given elements |
| ExceptionSafety.Vector.Copy | 09_ExceptionHandling/03_ExceptionSafety/ExceptionSafetyExample.cpp:13 | the copy has the same elements |
| ExceptionSafety.Vector.PushBack | 09_ExceptionHandling/03_ExceptionSafety/ExceptionSafetyExample.cpp:14 | `push_back` appends the value, or throws leaving the vector unchanged |
| ExceptionSafety.Vector.Swap | 09_ExceptionHandling/03_ExceptionSafety/ExceptionSafetyExample.cpp:15 | the two vectors exchange their elements |
| ExceptionSafety.PushStrong | 09_ExceptionHandling/03_ExceptionSafety/ExceptionSafetyExample.cpp:12-16 | throws exactly when the copy or the push fails, then leaving v as it was; otherwise v gains the value at the end |
| ExceptionSafety.PushBasic | 09_ExceptionHandling/03_ExceptionSafety/ExceptionSafetyExample.cpp:19-21 | throws exactly when the push fails, v then unchanged; otherwise v gains the value |
| ExceptionSafety.Example | 09_ExceptionHandling/03_ExceptionSafety/ExceptionSafetyExample.cpp:23-32 | `main` prints 1 2 3 4 5 |
| ExceptionSafety.RollbackExample | 09_ExceptionHandling/03_ExceptionSafety/ExceptionSafetyExample.cpp:12-16 | a failing push inside `pushStrong` leaves the vector 1 2 3 4 and reports the exception |

## Left out

- Printed narration: every `std::cout` line that is not a traversal, a count or a result is dropped; printed sequences are returned values.
- The library tours: examples 1 to 3 of `PriorityQueueExample.cpp`, the erase and iteration parts of the map demos, the underlying-container examples of the stack and queue demos, and every other demo that only calls library members on literals, because their behaviour belongs to the standard library.
- Hashing and bucket layout of `std::unordered_map` and `std::unordered_set`, `PointHash` included, and the iteration order of unordered containers, because none of the modelled results depends on them.
- Memory release: the destructors of `Buffer` and of both linked lists, `delete[]` in the `Buffer` assignments, and `unique_ptr` ownership, because Dafny has no deallocation; a linked-list node that is unlinked simply becomes unreachable.
- LinkedListExample.LinkedList.Destroy: the destructor is modelled as the walk that empties the list and counts the nodes it would delete.
- RuleOfFive.Buffer.Sized: `new int[sz]` leaves the ints indeterminate, so the model promises nothing about their values, and `Example` promises sizes and distinct storage, not contents.
- Allocation failure and exceptions in `ExceptionSafetyExample.cpp` are boolean parameters saying which step throws, because allocation cannot fail in Dafny; the basic and the strong guarantee differ only in what a partially completed `push_back` may leave, which `std::vector::push_back` itself rules out, so both models leave the vector unchanged on failure.
- C++ `int` overflow: postfix evaluation reports a result outside 32-bit `int`, and division by zero, as no value (undefined behaviour); `fib` requires `n <= 46`, the largest argument whose Fibonacci number fits in `int`; print-job page totals are unbounded integers.
- VectorStack.Stack.Top, HashTableImpl.HashTable.Contains, QueueImpl.Queue.Front: the source has no guard against calling `back()` on an empty vector, taking `hash(k)` modulo a zero capacity or reading the front of an empty queue, so a non-empty stack, a table with at least one slot and a non-empty queue are preconditions.
- DequeDemo.SlidingWindowMax: the count of deque operations (each index pushed once and popped at most once) is not stated, because it concerns running time rather than the result.
- PriorityDemo.TaskDemo: `std::priority_queue` does not fix the order of equal priorities, so the two priority-5 tasks may come out either way; the model leaves it open.
- PriorityDemo.Drain, PriorityDemo.Top: the heap is a multiset and `top()` returns any element of the highest rank; the binary-heap layout is not modelled.
- UnorderedMapDemo.FibCache.Compute: the cache contents are stated through the largest argument stored so far (`top`), meaning that arguments 2 to `top` are stored with their Fibonacci numbers; because `top` is at least 1, the clause for already-covered arguments also says that `n <= 1` leaves the cache untouched.
- The example texts of the map and multiset demos are written as word lists joined by blanks, so a lemma connects each literal to its tokens.
