# A verified model of the stock screener's container library and index engine

The repository is a console stock screener written in C++. It reads a CSV of company-year records into an arena (`DataStore::all_stocks`) and indexes the arena with a hand-written container library:

- a chained `HashMap` by normalized name and by sector;
- an `AVLTree` of P/E handles;
- a P/E min-heap and an ROE max-heap;
- an `AdjacencyListGraph` that links records whose feature distance is below 0.3.

Its queries are name search, sector filter and statistics, top-n by ROE, lowest-n by P/E, weighted recommendations, trend flags and nearest neighbours. Around this core sit a CSV parser, a `Stock` record with validation rules, a `UserManager` with CSV escaping, e-mail normalisation and a modular password hash, a character-mixing password `security` class, and the menu helpers of `main.cpp`.

This project models that core in Dafny, one module per source file:

- Containers whose fields the source updates in place are classes. They have `Valid()` invariants, `modifies` clauses, and `seq` fields in place of the pointer chains.
- Pure computations are functions and lemmas.
- Every loop the source runs is a method, proved against a specification function.
- A C++ `throw`, or a sentinel return, becomes a `Result` or an `Option`.

A `Stock*` into the arena is the record's position. Metrics are reals. The ranking handles `StockPeKey`, `StockRoeKey` and `RecScore` are one datatype, `RankKey(metric, name, ref)`. It is ordered by metric, then by company name. The `operator==` of `StockPeKey` and `StockRoeKey` compares only the record pointers; that of `RecScore` compares the pointer and the score (DataStore.h:312-314). Equality of `RankKey` values compares all three fields, and the name is fixed by the record, so it agrees with each handle's `operator==` for handles built from one arena. Only `AVLTree::search_node` applies `==` to a handle, and only to P/E handles; the heaps never compare handles with `==`.

These things are parameters of the model:

- the raw key bytes `HashMap::hash_function` folds;
- the numeric extraction of `std::istringstream`;
- the random draws of the CSV parser and of the salt generators;
- the keyboard codes `_getch` returns.

## Model

| member | source | states |
|---|---|---|
| Vectors.Vector.constructor | Vector.h:24-27 | an empty vector whose buffer has the requested capacity |
| Vectors.Vector.Copy | Vector.h:29-35 | the copy has the same capacity and the same live elements in a fresh buffer |
| Vectors.Vector.Resize | Vector.h:13-21 | a fresh buffer of the new capacity holding the same live elements |
| Vectors.Vector.PushBack | Vector.h:74-79 | the value is appended after the old contents; capacity doubles exactly when the vector was full, otherwise the buffer is kept |
| Vectors.Vector.PopBack | Vector.h:81-85 | drops the last element; no-op on an empty vector; buffer and capacity kept |
| Vectors.Vector.Get | Vector.h:87-92 | succeeds iff 0 <= index < size, and then yields the element at that index |
| Vectors.Vector.Set | Vector.h:87-92 | succeeds iff the index is in range, and then replaces exactly that element |
| Vectors.Vector.Back | Vector.h:95-100 | fails iff the vector is empty; otherwise the last element |
| Vectors.Vector.Size | Vector.h:102-104 | the number of live elements |
| Vectors.Vector.Empty | Vector.h:106-108 | true iff there are no live elements |
| Vectors.Vector.Clear | Vector.h:110-112 | no live elements afterwards; buffer and capacity kept |
| Vectors.Vector.Erase | Vector.h:114-122 | an in-range index removes exactly that element, keeping the order of the rest; an out-of-range index changes nothing |
| Arrays.Array.constructor | Array.h:24-27 | an empty array whose buffer has the requested capacity |
| Arrays.Array.Copy | Array.h:29-35 | the copy has the same capacity and the first size elements of the original, in a fresh buffer |
| Arrays.Array.Resize | Array.h:13-21 | a fresh buffer of the new capacity holding the same live elements |
| Arrays.Array.PushBack | Array.h:74-79 | appends the value; capacity doubles exactly when the array was full |
| Arrays.Array.PopBack | Array.h:81-85 | drops the last element; no-op on an empty array |
| Arrays.Array.Get | Array.h:87-92 | succeeds iff 0 <= index < size, and then yields that element |
| Arrays.Array.Set | Array.h:87-92 | succeeds iff the index is in range, and then replaces exactly that element |
| Arrays.Array.Size | Array.h:94-96 | the number of live elements |
| Arrays.Array.Empty | Array.h:97-99 | true iff size is 0, i.e. iff there are no live elements |
| Arrays.Array.Clear | Array.h:101-103 | no live elements afterwards; capacity kept |
| LinkedQueue.Queue.constructor | Queue.h:30 | an empty queue |
| LinkedQueue.Queue.Copy | Queue.h:32-38 | enqueueing the other queue's elements front to rear gives the same element order |
| LinkedQueue.Queue.Enqueue | Queue.h:74-83 | the value is appended at the rear and the size grows by one |
| LinkedQueue.Queue.Dequeue | Queue.h:85-95 | removes the front element; no-op on an empty queue |
| LinkedQueue.Queue.Front | Queue.h:97-102 | fails iff the queue is empty; otherwise the oldest element |
| LinkedQueue.Queue.Empty | Queue.h:104-106 | true iff there is no front node |
| LinkedQueue.Queue.Size | Queue.h:108-110 | the number of elements |
| LinkedQueue.FifoOrder | Queue.h:74-102 | draining with front and dequeue yields exactly the enqueued sequence, in order |
| LinkedStack.Stack.constructor | Stack.h:29-30 | an empty stack |
| LinkedStack.Stack.Copy | Stack.h:32-44 | collecting top to bottom and pushing back from the last entry rebuilds the same top-to-bottom order |
| LinkedStack.Stack.Push | Stack.h:84-89 | the value becomes the top and the size grows by one |
| LinkedStack.Stack.Pop | Stack.h:91-98 | removes the top element; no-op on an empty stack |
| LinkedStack.Stack.Top | Stack.h:100-105 | fails iff the stack is empty; otherwise the most recently pushed element still present |
| LinkedStack.Stack.Empty | Stack.h:107-109 | true iff there is no top node |
| LinkedStack.Stack.Size | Stack.h:111-113 | the number of elements |
| LinkedStack.LifoOrder | Stack.h:84-105 | pushing a sequence and then popping everything yields it reversed |
| SinglyLinked.SinglyLinkedList.constructor | SinglyLinkedList.h:28 | an empty list |
| SinglyLinked.SinglyLinkedList.Copy | SinglyLinkedList.h:30-36 | appending the other list's values head to tail gives the same order |
| SinglyLinked.SinglyLinkedList.PushFront | SinglyLinkedList.h:71-76 | the value is prepended and the size grows by one |
| SinglyLinked.SinglyLinkedList.PushBack | SinglyLinkedList.h:78-90 | the value is appended after the last node and the size grows by one |
| SinglyLinked.SinglyLinkedList.PopFront | SinglyLinkedList.h:92-99 | removes the head; no-op on an empty list |
| SinglyLinked.SinglyLinkedList.Empty | SinglyLinkedList.h:101-103 | true iff there is no head |
| SinglyLinked.SinglyLinkedList.Size | SinglyLinkedList.h:105-107 | the number of elements |
| SinglyLinked.SinglyLinkedList.Front | SinglyLinkedList.h:109-114 | fails iff the list is empty; otherwise the head's value |
| DoublyLinked.DoublyLinkedList.constructor | DoublyLinkedList.h:31 | an empty list |
| DoublyLinked.DoublyLinkedList.Copy | DoublyLinkedList.h:33-40 | appending the other list's values head to tail gives the same order |
| DoublyLinked.DoublyLinkedList.PushFront | DoublyLinkedList.h:76-86 | the value is added at the head and the size grows by one |
| DoublyLinked.DoublyLinkedList.PushBack | DoublyLinkedList.h:88-98 | the value is added at the tail and the size grows by one |
| DoublyLinked.DoublyLinkedList.PopFront | DoublyLinkedList.h:100-112 | removes the head; no-op on an empty list; removing the only element leaves both ends empty |
| DoublyLinked.DoublyLinkedList.PopBack | DoublyLinkedList.h:114-126 | removes the tail; no-op on an empty list; removing the only element leaves both ends empty |
| DoublyLinked.DoublyLinkedList.Empty | DoublyLinkedList.h:128-130 | true iff there is no head |
| DoublyLinked.DoublyLinkedList.Size | DoublyLinkedList.h:132-134 | the number of elements |
| DoublyLinked.DoublyLinkedList.Front | DoublyLinkedList.h:136-141 | fails iff the list is empty; otherwise the head's value |
| DoublyLinked.DoublyLinkedList.Back | DoublyLinkedList.h:143-148 | fails iff the list is empty; otherwise the tail's value |
| DoublyLinked.DoublyLinkedList.ToVector | DoublyLinkedList.h:151-159 | the elements from head to tail |
| DoublyLinked.DoublyLinkedList.At | DoublyLinkedList.h:162-171 | fails iff the index is outside [0, size); otherwise the element that many links from the head |
| SinglyLinkListLib.SinglyLinkedList.constructor | Singly_Link_List_Lib.h:24 | an empty list |
| SinglyLinkListLib.SinglyLinkedList.PushFront | Singly_Link_List_Lib.h:27-33 | the value is prepended and sz grows by one |
| SinglyLinkListLib.SinglyLinkedList.PushBack | Singly_Link_List_Lib.h:35-48 | the value is appended after the last node and sz grows by one |
| SinglyLinkListLib.SinglyLinkedList.PopFront | Singly_Link_List_Lib.h:50-59 | returns false and changes nothing on an empty list; otherwise removes the head and returns true |
| SinglyLinkListLib.SinglyLinkedList.Contains | Singly_Link_List_Lib.h:61-71 | true iff some node holds a value equal to the argument |
| SinglyLinkListLib.SinglyLinkedList.Size | Singly_Link_List_Lib.h:73 | the number of elements |
| SinglyLinkListLib.SinglyLinkedList.Empty | Singly_Link_List_Lib.h:74 | true iff sz is 0, i.e. the list has no elements |
| SinglyLinkListLib.SinglyLinkedList.Clear | Singly_Link_List_Lib.h:76-80 | the list is empty with sz 0 afterwards |
| SinglyLinkListLib.SinglyLinkedList.ToVector | Singly_Link_List_Lib.h:82-92 | the elements from head to tail |
| DoublyLinkListLib.DoublyLinkedList.constructor | Doubly_Link_List_Lib.h:26 | an empty list |
| DoublyLinkListLib.DoublyLinkedList.PushFront | Doubly_Link_List_Lib.h:29-41 | the value is added at the head and sz grows by one |
| DoublyLinkListLib.DoublyLinkedList.PushBack | Doubly_Link_List_Lib.h:43-55 | the value is added at the tail and sz grows by one |
| DoublyLinkListLib.DoublyLinkedList.PopFront | Doubly_Link_List_Lib.h:57-70 | returns false and changes nothing on an empty list; otherwise removes the head and returns true |
| DoublyLinkListLib.DoublyLinkedList.PopBack | Doubly_Link_List_Lib.h:72-85 | returns false and changes nothing on an empty list; otherwise removes the tail and returns true |
| DoublyLinkListLib.DoublyLinkedList.Contains | Doubly_Link_List_Lib.h:87-97 | true iff some node holds a value equal to the argument |
| DoublyLinkListLib.DoublyLinkedList.Size | Doubly_Link_List_Lib.h:99 | the number of elements |
| DoublyLinkListLib.DoublyLinkedList.Empty | Doubly_Link_List_Lib.h:100 | true iff sz is 0 |
| DoublyLinkListLib.DoublyLinkedList.Clear | Doubly_Link_List_Lib.h:102-106 | the list is empty with sz 0 afterwards |
| DoublyLinkListLib.DoublyLinkedList.ToVector | Doubly_Link_List_Lib.h:108-118 | the elements from head to tail |
| QueueArrayLib.QueueArray.constructor | Queue_Array_Implementation_Lib.h:17-19 | an empty ring of cap slots with both indices at 0 |
| QueueArrayLib.QueueArray.Push | Queue_Array_Implementation_Lib.h:25-31 | returns false and changes nothing when cnt equals capacity; otherwise writes the value at rearIndex and no other slot, advances rearIndex modulo capacity, keeps frontIndex, increments cnt and appends the value, keeping rearIndex == (frontIndex + cnt) % capacity |
| QueueArrayLib.QueueArray.Pop | Queue_Array_Implementation_Lib.h:33-38 | returns false and changes nothing on an empty queue; otherwise advances frontIndex modulo capacity, keeps rearIndex, decrements cnt and drops the oldest element |
| QueueArrayLib.QueueArray.Front | Queue_Array_Implementation_Lib.h:40-43 | fails iff empty; otherwise the oldest element, at frontIndex |
| QueueArrayLib.QueueArray.Back | Queue_Array_Implementation_Lib.h:45-49 | fails iff empty; otherwise the newest element, at slot (rearIndex - 1 + capacity) % capacity |
| QueueArrayLib.QueueArray.Empty | Queue_Array_Implementation_Lib.h:51 | true iff cnt is 0 |
| QueueArrayLib.QueueArray.Full | Queue_Array_Implementation_Lib.h:52 | true iff the number of elements equals the capacity |
| QueueArrayLib.QueueArray.Size | Queue_Array_Implementation_Lib.h:53 | the number of elements |
| QueueArrayLib.FifoOrder | Queue_Array_Implementation_Lib.h:25-43 | elements pushed into a queue with room for them leave through front/pop in the order they entered |
| StackArrayLib.StackArray.constructor | Stack_Array_Implementation_Lib.h:17-20 | an empty stack (topIndex -1) over cap slots |
| StackArrayLib.StackArray.Push | Stack_Array_Implementation_Lib.h:27-32 | overflow, with nothing changed, exactly when topIndex >= capacity - 1; otherwise the value is stored at the incremented topIndex |
| StackArrayLib.StackArray.Pop | Stack_Array_Implementation_Lib.h:34-40 | returns false on an empty stack; otherwise drops the top by decrementing topIndex |
| StackArrayLib.StackArray.Top | Stack_Array_Implementation_Lib.h:42-47 | fails iff empty; otherwise arr[topIndex], the last element pushed |
| StackArrayLib.StackArray.Empty | Stack_Array_Implementation_Lib.h:49 | true iff topIndex < 0 |
| StackArrayLib.StackArray.Size | Stack_Array_Implementation_Lib.h:50 | topIndex + 1, the number of elements |
| QueueLinkListLib.Queue.constructor | Queue_Link_List_Implementation_Lib.h:23 | an empty queue |
| QueueLinkListLib.Queue.Push | Queue_Link_List_Implementation_Lib.h:34-47 | the value is appended at the rear and sz grows by one |
| QueueLinkListLib.Queue.Pop | Queue_Link_List_Implementation_Lib.h:49-60 | returns false on an empty queue; otherwise removes the front element |
| QueueLinkListLib.Queue.Front | Queue_Link_List_Implementation_Lib.h:62-67 | fails iff empty; otherwise the oldest value |
| QueueLinkListLib.Queue.Back | Queue_Link_List_Implementation_Lib.h:69-74 | fails iff empty; otherwise the newest value |
| QueueLinkListLib.Queue.Empty | Queue_Link_List_Implementation_Lib.h:76 | true iff sz is 0 |
| QueueLinkListLib.Queue.Size | Queue_Link_List_Implementation_Lib.h:77 | the number of elements |
| StackLinkListLib.Stack.constructor | Stack_link_List_Implementation_Lib.h:23 | an empty stack |
| StackLinkListLib.Stack.Push | Stack_link_List_Implementation_Lib.h:34-40 | the value becomes the top and sz grows by one |
| StackLinkListLib.Stack.Pop | Stack_link_List_Implementation_Lib.h:42-50 | fails with an empty-container error, changing nothing, on an empty stack; otherwise removes the top |
| StackLinkListLib.Stack.Top | Stack_link_List_Implementation_Lib.h:52-64 | fails iff empty; otherwise the last pushed value still present |
| StackLinkListLib.Stack.Empty | Stack_link_List_Implementation_Lib.h:66 | true iff sz is 0 |
| StackLinkListLib.Stack.Size | Stack_link_List_Implementation_Lib.h:67 | the number of elements |
| Ranking.StrLessIrreflexive | DataStore.h:21-25 | string < used to break ties never relates a name to itself |
| Ranking.StrLessTransitive | DataStore.h:21-25 | string < used to break ties is transitive |
| Ranking.StrLessTotal | DataStore.h:21-25 | any two distinct names are ordered one way or the other |
| Ranking.StrLessAsymmetric | DataStore.h:21-25 | no two names are each < the other |
| Ranking.LessIrreflexive | DataStore.h:21-26 | no ranking handle is < itself |
| Ranking.LessTransitive | DataStore.h:21-26 | the metric-then-name order of the handles is transitive |
| Ranking.LessTrichotomy | DataStore.h:21-32 | exactly one of a < b, b < a, or same metric and same name |
| Ranking.NotLessTransitive | DataStore.h:33-38 | operator<= (written as "not >") is transitive |
| HeapOrder.BeatsAsymmetric | MinHeap.h:16 | two entries never each belong above the other |
| HeapOrder.BeatsTransitive | MinHeap.h:32-36 | "belongs above" is transitive |
| HeapOrder.NotBeatsTransitive | MinHeap.h:16 | "does not belong above" is transitive |
| HeapOrder.RootIsBest | MinHeap.h:91-96 | in a heap no entry belongs above slot 0 (proved along the parent chain) |
| HeapOrder.RootIsBestAll | MaxHeap.h:91-96 | slot 0 of a heap is a minimum (MinHeap) or maximum (MaxHeap) of all entries |
| HeapOrder.Swap | MinHeap.h:19-21 | exchanging two slots keeps the length and the multiset and touches no other slot |
| HeapOrder.UpStep | MinHeap.h:14-23 | one swap of heapify_up moves the only possible violation up to the parent |
| HeapOrder.DownStep | MinHeap.h:27-46 | one swap of heapify_down with the more extreme child moves the only possible violation down to that child |
| HeapOrder.LastToRoot | MinHeap.h:84-85 | copying the last entry to the root and popping the back removes exactly one occurrence of the root |
| HeapOrder.LastToRootDownInv | MinHeap.h:84-88 | after that step only the root can be out of heap order |
| HeapOrder.SiftUp | MinHeap.h:13-24 | heapify_up restores heap order and keeps the multiset of entries |
| HeapOrder.SiftDown | MaxHeap.h:26-47 | heapify_down restores heap order and keeps the multiset of entries |
| MinHeaps.MinHeap.constructor | MinHeap.h:50 | an empty heap |
| MinHeaps.MinHeap.Copy | MinHeap.h:52 | the copy holds the same vector as a separate object, so draining it leaves the original unchanged |
| MinHeaps.MinHeap.Push | MinHeap.h:75-78 | every parent is <= its children afterwards, the size grows by one and the value is added to the multiset |
| MinHeaps.MinHeap.Pop | MinHeap.h:80-89 | no-op on an empty heap; otherwise exactly one occurrence of the root (a minimum) is removed and heap order holds |
| MinHeaps.MinHeap.Top | MinHeap.h:91-96 | fails iff empty; otherwise slot 0, which no element is < |
| MinHeaps.MinHeap.Empty | MinHeap.h:98-100 | true iff the heap has no entries |
| MinHeaps.MinHeap.Size | MinHeap.h:102-104 | the number of entries |
| MaxHeaps.MaxHeap.constructor | MaxHeap.h:50 | an empty heap |
| MaxHeaps.MaxHeap.Copy | MaxHeap.h:52 | the copy holds the same vector as a separate object |
| MaxHeaps.MaxHeap.Push | MaxHeap.h:75-78 | every parent is >= its children afterwards, the size grows by one and the value is added to the multiset |
| MaxHeaps.MaxHeap.Pop | MaxHeap.h:80-89 | no-op on an empty heap; otherwise exactly one occurrence of the root (a maximum) is removed and heap order holds |
| MaxHeaps.MaxHeap.Top | MaxHeap.h:91-96 | fails iff empty; otherwise slot 0, which no element is > |
| MaxHeaps.MaxHeap.Empty | MaxHeap.h:98-100 | true iff the heap has no entries |
| MaxHeaps.MaxHeap.Size | MaxHeap.h:102-104 | the number of entries |
| HashMaps.HashFold | HashMap.h:22-30 | the folded hash always lies in [0, capacity) |
| HashMaps.HashFoldIsPolyMod | HashMap.h:25-30 | reducing after every Horner step gives the base-31 polynomial of the key bytes reduced once |
| HashMaps.MissingFromChain | HashMap.h:159-168 | a walk of the key's chain that does not meet the key proves the key absent from the map |
| HashMaps.OverwriteChainsOk | HashMap.h:145-149 | overwriting the value in the key's node keeps the chain invariant and maps the key to the new value |
| HashMaps.PrependChainsOk | HashMap.h:153-156 | prepending a node for an absent key keeps the chain invariant and adds exactly that key |
| HashMaps.UnlinkChainsOk | HashMap.h:190-199 | unlinking the key's node keeps the chain invariant and removes exactly that key |
| HashMaps.ReinsertStep | HashMap.h:45-53 | each node re-inserted during a rehash carries a new key, agrees with the old map and leaves the new table under its load limit |
| HashMaps.RehashChain | HashMap.h:45-53 | the keys of old chain i are exactly the old keys hashing to i, disjoint from those already moved |
| HashMaps.HashMap.constructor | HashMap.h:70-76 | initialCapacity empty chains, an empty map |
| HashMaps.HashMap.HashFunction | HashMap.h:21-36 | an index in [0, capacity), equal to the key bytes' base-31 polynomial modulo capacity |
| HashMaps.HashMap.FindInChain | HashMap.h:143-151 | the position of the key in its slot's chain, carrying its mapped value, or -1 exactly when the key is absent |
| HashMaps.HashMap.Place | HashMap.h:142-156 | a present key has its value overwritten with size unchanged; an absent key gets exactly one new node at the head of its chain and size + 1 |
| HashMaps.HashMap.ReinsertChain | HashMap.h:46-52 | re-inserting one old chain head to tail adds exactly its keys with their old values |
| HashMaps.HashMap.MoveChains | HashMap.h:45-53 | re-inserting every old chain into the empty doubled table reproduces exactly the old key-to-value map |
| HashMaps.HashMap.Rehash | HashMap.h:38-55 | capacity doubles, a fresh bucket array holds exactly the same key-to-value pairs, size unchanged |
| HashMaps.HashMap.Insert | HashMap.h:137-157 | the map becomes old map with key -> value; size grows only for a new key; capacity doubles exactly when 4*size >= 3*capacity beforehand; a new key heads its chain |
| HashMaps.HashMap.Contains | HashMap.h:159-169 | true iff the key is in the map |
| HashMaps.HashMap.Get | HashMap.h:171-179 | operator[] on a present key returns its mapped value and changes nothing |
| HashMaps.HashMap.Index | HashMap.h:171-183 | a present key yields its value with nothing changed; an absent key is inserted with the default value, size + 1, and that default is returned from the new head node |
| HashMaps.HashMap.Assign | HashMap.h:171-179 | writing through operator[]'s reference to a present key updates only that key's value |
| HashMaps.HashMap.Erase | HashMap.h:185-204 | removes the key and decrements size when present; otherwise no-op; other keys unchanged |
| HashMaps.HashMap.Size | HashMap.h:206-208 | the number of keys |
| HashMaps.HashMap.Empty | HashMap.h:210-212 | true iff the map is empty |
| HashMaps.OneNodePerKey | HashMap.h:142-156 | under the chain invariant a key occurs in at most one node across all buckets |
| HashMaps.LoadFactorBound | HashMap.h:137-140 | when capacity is a multiple of 4, 4*size <= 3*capacity holds of every valid table |
| HashMaps.HashMap.UnlinkAt | HashMap.h:190-199 | unlinking the key's node, through prev or the chain head, removes exactly that key, decrements size and keeps the table's invariant |
| HashMaps.HashMap.MoveChain | HashMap.h:46-52 | re-inserting one old chain extends the new table's keys from those of the chains before it to those up to it, each with its old value |
| AvlShape.Size | AVL.h:136-140 | the node count equals the length of the in-order sequence |
| AvlShape.CachedHeight | AVLTree.h:21-27 | in a balanced tree get_height's cached value is the true height |
| AvlShape.RotateRight | AVLTree.h:45-56 | right rotation keeps the in-order sequence, lifts the left child to the root and recomputes both heights |
| AvlShape.RotateLeft | AVLTree.h:58-69 | left rotation keeps the in-order sequence, lifts the right child to the root and recomputes both heights |
| AvlShape.LeftHeavySingle | AVLTree.h:99-101 | left-left case: one right rotation of a node whose left child is two taller yields a balanced tree of known height |
| AvlShape.LeftHeavyDouble | AVLTree.h:89-92 | left-right case: left-rotating the child and right-rotating the node yields a balanced tree of the child's old height |
| AvlShape.RightHeavySingle | AVLTree.h:103-105 | right-right case: one left rotation yields a balanced tree of known height |
| AvlShape.RightHeavyDouble | AVLTree.h:94-97 | right-left case: right-rotating the child and left-rotating the node yields a balanced tree of the child's old height |
| AvlTrees.SeqInsertMembers | AVLTree.h:71-82 | sorted insertion either leaves the sequence unchanged or adds exactly one occurrence of the value |
| AvlTrees.SeqInsertSorted | AVLTree.h:71-82 | sorted insertion keeps a strictly ascending sequence strictly ascending |
| AvlTrees.SeqInsertEquiv | AVLTree.h:80-82 | the value is added exactly when no handle neither < nor > it is present |
| AvlTrees.SeqInsertContents | AVLTree.h:71-82 | after insert the in-order sequence is ascending and its contents are the old contents plus the value, or unchanged for an equivalent value |
| AvlTrees.Rebalance | AVLTree.h:84-107 | the height is recomputed and the four rotation cases restore balance {-1,0,1} at the node while keeping the in-order sequence |
| AvlTrees.InsertNode | AVLTree.h:71-108 | insert_node returns a tree whose every node has a correct height and balance in {-1,0,1}, at most one taller than before |
| AvlTrees.InsertNodeInOrder | AVLTree.h:71-82 | insert_node's in-order sequence is the sorted insertion of the value into the old one |
| AvlTrees.InsertEquivUnchanged | AVLTree.h:80-82 | inserting a value that is neither < nor > some stored handle returns the tree unchanged |
| AvlTrees.SearchNodeFinds | AVLTree.h:129-140 | when the stored handles of the record agree with the query's metric and name, search is true iff a handle of that record is in the tree |
| AvlTrees.SearchMissesEquivalentHandle | AVLTree.h:133 | a handle of a different record with the same P/E and name is neither found (== is identity) nor inserted |
| AvlTrees.AVLTree.constructor | AVLTree.h:143 | an empty tree |
| AvlTrees.AVLTree.Copy | AVLTree.h:145-147 | the copy has the same nodes and cached heights |
| AvlTrees.AVLTree.Insert | AVLTree.h:174-176 | the tree stays balanced and strictly ascending; its in-order sequence is the sorted insertion of the value |
| AvlTrees.AVLTree.Search | AVLTree.h:129-140 | search follows the BST path; when the stored handles of the record agree with the query's P/E and name, it is true exactly when a handle of that record is stored |
| AvlTrees.AVLTree.Empty | AVLTree.h:182-184 | true iff the tree holds no handle |
| AvlTrees.InsertLeftSeq | AVLTree.h:76-77 | a value below the root goes into the left part of the in-order sequence |
| AvlTrees.InsertRightSeq | AVLTree.h:78-79 | a value above the root goes into the right part of the in-order sequence |
| AvlTrees.InsertEquivSeq | AVLTree.h:80-81 | a value equivalent to the root leaves the in-order sequence as it is |
| AvlLib.RightRotation | AVL.h:43-52 | right_rotation keeps the in-order sequence and is a no-op without a left child |
| AvlLib.LeftRotation | AVL.h:53-62 | left_rotation keeps the in-order sequence and is a no-op without a right child |
| AvlLib.LeftImbalance | AVL.h:63-69 | the single or left-right double rotation keeps the in-order sequence |
| AvlLib.RightImbalance | AVL.h:70-76 | the single or right-left double rotation keeps the in-order sequence |
| AvlLib.LeftImbalanceRestores | AVL.h:63-69 | when the left subtree is two taller, left_imbalance yields a balanced tree whose height is the left subtree's height, or one more when the left child was even |
| AvlLib.RightImbalanceRestores | AVL.h:70-76 | the mirror image: right_imbalance re-balances a right subtree two taller |
| AvlLib.Rebalance | AVL.h:98-101 | the height update plus imbalance fix-up yields a balanced tree with the same in-order sequence, leaving an already balanced node as it is and changing the height by at most one |
| AvlLib.InsertUtl | AVL.h:103-112 | insertion keeps the tree balanced and grows its height by at most one |
| AvlLib.InsertUtlContents | AVL.h:103-112 | insertion keeps the values strictly sorted and the new value set is the old set plus val |
| AvlLib.InsertUtlDuplicate | AVL.h:105-107 | inserting a value already stored returns the tree unchanged (duplicates are ignored) |
| AvlLib.ExtremesInOrder | AVL.h:141-152 | the left-most node holds the first in-order value and the right-most node the last |
| AvlLib.ExtremesBound | AVL.h:141-152 | in a search tree the left-most value is the minimum and the right-most the maximum |
| AvlLib.DeleteUtl | AVL.h:77-102 | deletion keeps the tree balanced and shrinks its height by at most one |
| AvlLib.DeleteUtlContents | AVL.h:77-102 | deletion keeps the values strictly sorted and removes exactly val, replacing a two-child node by its in-order predecessor |
| AvlLib.DeleteUtlAbsent | AVL.h:79-81 | deleting a value that is not stored returns the tree unchanged |
| AvlLib.FindPred | AVL.h:32-42 | find_pred is null without a left child, else the right-most value of the left subtree, which bounds every value there |
| AvlLib.MinUtl | AVL.h:141-146 | min_utl returns T{} on an empty tree and otherwise the smallest stored value |
| AvlLib.MaxUtl | AVL.h:147-152 | max_utl returns T{} on an empty tree and otherwise the largest stored value |
| AvlLib.SearchPath | AVL.h:177-192 | search returns val when it is stored and T{} otherwise |
| AvlLib.AvlTree.constructor | AVL.h:154 | a new tree is empty |
| AvlLib.AvlTree.Copy | AVL.h:127-135 | the copy constructor reproduces the same values, shape and cached heights |
| AvlLib.AvlTree.Insert | AVL.h:198-201 | insert keeps the AVL and search-order invariant and adds exactly val to the stored values |
| AvlLib.AvlTree.Remove | AVL.h:202-205 | remove keeps the invariant and removes exactly val from the stored values |
| AvlLib.AvlTree.Size | AVL.h:206-209 | size is the number of stored values |
| AvlLib.AvlTree.Empty | AVL.h:210-213 | empty holds exactly when no value is stored |
| AvlLib.AvlTree.Clear | AVL.h:214-218 | clear leaves an empty, valid tree |
| AvlLib.AvlTree.MinNode | AVL.h:219-222 | min_node is the smallest stored value, T{} when empty |
| AvlLib.AvlTree.MaxNode | AVL.h:223-226 | max_node is the largest stored value, T{} when empty |
| AvlLib.AvlTree.Search | AVL.h:177-192 | search finds val exactly when it is stored, T{} otherwise |
| AvlLib.SpliceContents | AVL.h:80-81 | deleting val from the side of the root it belongs to keeps the values sorted and removes exactly val |
| AvlLib.SpliceRoot | AVL.h:84-88 | replacing a two-child root by its in-order predecessor, deleted from the left, keeps the values sorted and removes exactly the root's value |
| BinaryTrees.Height | Binary_Tree_Lib.h:55-58 | height is 0 exactly for the empty tree |
| BinaryTrees.CountNodes | Binary_Tree_Lib.h:60-63 | count_nodes is 0 exactly for the empty tree |
| BinaryTrees.CountLeaves | Binary_Tree_Lib.h:65-69 | count_leaves never exceeds count_nodes and is at least one for a non-empty tree |
| BinaryTrees.Build | Binary_Tree_Lib.h:11-19 | the node at level-order index k exists exactly when k is below the node count and holds the k-th stored value |
| BinaryTrees.SizeIsLength | Binary_Tree_Lib.h:60-63 | the tree built by repeated inserts has as many nodes as values were inserted |
| BinaryTrees.SearchIsMembership | Binary_Tree_Lib.h:49-53 | recursive search finds a value exactly when it was inserted |
| BinaryTrees.LeavesOfComplete | Binary_Tree_Lib.h:65-69 | the complete tree that level-order insertion builds has ceil(n / 2) leaves |
| BinaryTrees.LeftDepthAntitone | Binary_Tree_Lib.h:55-58 | in a complete tree a node further right in level order never has a longer left-most path |
| BinaryTrees.HeightIsLeftDepth | Binary_Tree_Lib.h:55-58 | in the complete tree level-order insertion builds, height is the length of the left-most path |
| BinaryTrees.LeftDepthBounds | Binary_Tree_Lib.h:55-58 | below level-order node k of n, the left-most path has length d with (k+1) * 2^(d-1) <= n < (k+1) * 2^d |
| BinaryTrees.HeightOfComplete | Binary_Tree_Lib.h:55-58 | a complete tree of n > 0 nodes has height h with 2^(h-1) <= n < 2^h, that is floor(log2 n) + 1 |
| BinaryTrees.AppendCount | Binary_Tree_Lib.h:96-104 | hanging a node at the next level-order slot adds one node to exactly the subtrees on its ancestor path |
| BinaryTrees.AppendSearch | Binary_Tree_Lib.h:96-104 | the new node is found in exactly the subtrees on its ancestor path |
| BinaryTrees.AppendLeaves | Binary_Tree_Lib.h:96-104 | a new left child turns its leaf parent into an inner node, a new right child adds a leaf |
| BinaryTrees.BinaryTree.constructor | Binary_Tree_Lib.h:72 | a new tree is empty |
| BinaryTrees.BinaryTree.Clear | Binary_Tree_Lib.h:77-80 | clear leaves the empty tree |
| BinaryTrees.BinaryTree.Insert | Binary_Tree_Lib.h:82-106 | the breadth-first walk puts the value in the first free child slot, which is the next level-order position |
| BinaryTrees.BinaryTree.SearchValue | Binary_Tree_Lib.h:108 | search holds exactly for the inserted values |
| BinaryTrees.BinaryTree.Size | Binary_Tree_Lib.h:130 | size is the number of inserted values |
| BinaryTrees.BinaryTree.TreeHeight | Binary_Tree_Lib.h:129 | height is 0 exactly for an empty tree, and h with 2^(h-1) <= n < 2^h for n > 0 inserted values |
| BinaryTrees.BinaryTree.LeafCount | Binary_Tree_Lib.h:131 | leaf_count of n inserted values is ceil(n / 2) |
| AdjacencyLists.Contains | AdjacencyListGraph.h:96-103 | the edge_exists scan is true exactly when the vertex occurs in the list |
| AdjacencyLists.FindFirst | AdjacencyListGraph.h:128-134 | the scan stops at the first occurrence, or at the end when there is none |
| AdjacencyLists.RemoveFirst | AdjacencyListGraph.h:128-134 | erasing the first match removes one occurrence and keeps the rest as a multiset; an absent value leaves the list unchanged |
| AdjacencyLists.RemoveFirstAt | Vector.h:114-122 | erasing the index of the first match is the same as RemoveFirst |
| AdjacencyLists.EraseFirst | AdjacencyListGraph.h:128-134 | the search-then-erase loop of remove_edge computes RemoveFirst |
| AdjacencyLists.RemoveFirstDistinct | AdjacencyListGraph.h:128-134 | in a list without duplicates the erase removes the value completely and nothing else |
| AdjacencyLists.ClosedHoldsReachable | AdjacencyListGraph.h:209-216 | a vertex set that contains the start and every neighbour of its members holds every reachable vertex |
| AdjacencyLists.ReachStep | AdjacencyListGraph.h:210-215 | following one list entry from a reachable vertex reaches a vertex |
| AdjacencyLists.CountMark | AdjacencyListGraph.h:212-213 | marking an unvisited vertex raises the visited count by one, which bounds the traversal loops |
| AdjacencyLists.EnqueueUnvisited | AdjacencyListGraph.h:209-216 | the inner bfs loop marks and enqueues each unvisited neighbour once, keeping everything queued reachable and marked |
| AdjacencyLists.Bfs | AdjacencyListGraph.h:189-220 | bfs starts with the start vertex and lists every vertex reachable from it exactly once and nothing else |
| AdjacencyLists.PushUnvisited | AdjacencyListGraph.h:244-250 | the inner dfs loop pushes the unvisited neighbours last to first, so every neighbour is visited or on the stack |
| AdjacencyLists.Expand | AdjacencyListGraph.h:240-251 | visiting a popped unmarked vertex appends it once to the output and keeps the traversal invariant |
| AdjacencyLists.Dfs | AdjacencyListGraph.h:222-255 | dfs starts with the start vertex and lists every vertex reachable from it exactly once and nothing else |
| AdjacencyListGraphs.AddIfAbsent | AdjacencyListGraph.h:96-106 | the list after the edge_exists test holds the old entries plus the new one and stays duplicate-free |
| AdjacencyListGraphs.AddEdgeMembers | AdjacencyListGraph.h:91-121 | add_edge adds exactly the edge, plus its mirror when undirected |
| AdjacencyListGraphs.AddEdgeFrame | AdjacencyListGraph.h:91-121 | add_edge changes only the lists of its two endpoints |
| AdjacencyListGraphs.AddEdgeIdempotent | AdjacencyListGraph.h:97-106 | adding an edge twice is the same as adding it once |
| AdjacencyListGraphs.AddEdgeKeeps | AdjacencyListGraph.h:91-121 | add_edge keeps entries in range, lists duplicate-free and an undirected graph symmetric |
| AdjacencyListGraphs.RemoveEdgeMembers | AdjacencyListGraph.h:123-145 | remove_edge removes exactly the edge, plus its mirror when undirected |
| AdjacencyListGraphs.RemoveEdgeFrame | AdjacencyListGraph.h:123-145 | remove_edge changes only the lists of its two endpoints |
| AdjacencyListGraphs.RemoveEdgeKeeps | AdjacencyListGraph.h:123-145 | remove_edge keeps entries in range, lists duplicate-free and an undirected graph symmetric |
| AdjacencyListGraphs.HasEdgeSymmetric | AdjacencyListGraph.h:147-158 | in an undirected graph has_edge(u, v) equals has_edge(v, u) |
| AdjacencyListGraphs.AdjacencyListGraph.constructor | AdjacencyListGraph.h:32-42 | the graph starts with an empty list and a default value per vertex, and none for a non-positive count |
| AdjacencyListGraphs.AdjacencyListGraph.AddVertex | AdjacencyListGraph.h:84-89 | add_vertex appends one vertex with an empty list and the given data |
| AdjacencyListGraphs.AdjacencyListGraph.AddEdge | AdjacencyListGraph.h:91-121 | add_edge fails on an out-of-range endpoint and otherwise adds the edge without duplicates, keeping the invariant |
| AdjacencyListGraphs.AdjacencyListGraph.RemoveEdge | AdjacencyListGraph.h:123-145 | remove_edge fails on an out-of-range endpoint and otherwise erases the edge, keeping the invariant |
| AdjacencyListGraphs.AdjacencyListGraph.HasEdgeQuery | AdjacencyListGraph.h:147-158 | has_edge is false for an out-of-range vertex and otherwise list membership |
| AdjacencyListGraphs.AdjacencyListGraph.GetNeighbors | AdjacencyListGraph.h:160-165 | get_neighbors fails on a bad vertex and otherwise returns its list, which is duplicate-free and in range |
| AdjacencyListGraphs.AdjacencyListGraph.SetVertexData | AdjacencyListGraph.h:167-172 | set_vertex_data fails on a bad vertex and otherwise replaces only that vertex's data |
| AdjacencyListGraphs.AdjacencyListGraph.GetVertexData | AdjacencyListGraph.h:174-179 | get_vertex_data fails on a bad vertex and otherwise returns that vertex's data |
| AdjacencyListGraphs.AdjacencyListGraph.Bfs | AdjacencyListGraph.h:189-220 | bfs fails on a bad start and otherwise lists each reachable vertex once, the start first |
| AdjacencyListGraphs.AdjacencyListGraph.Dfs | AdjacencyListGraph.h:222-255 | dfs fails on a bad start and otherwise lists each reachable vertex once, the start first |
| Graphs.Falses | Graph.h:39-42 | a new row has the requested number of cells, all false |
| Graphs.Widen | Graph.h:100-102 | add_vertex gives every existing row one extra false cell at its end |
| Graphs.SetCell | Graph.h:119 | setting one matrix cell changes that cell and no other |
| Graphs.AddVertexSquare | Graph.h:96-112 | add_vertex turns an n by n matrix into an n+1 by n+1 one, keeping the old cells and making the new row and column false |
| Graphs.MarkEdgeCells | Graph.h:114-152 | add_edge and remove_edge change exactly the edge's cell, plus the mirror cell when undirected |
| Graphs.MarkEdgeSymmetric | Graph.h:122-125 | in undirected mode the matrix stays symmetric |
| Graphs.AddEdgeTwiceDuplicates | Graph.h:120 | adding the same edge twice leaves two entries in the list |
| Graphs.RemoveAfterDoubleAdd | Graph.h:128-140 | after two adds and one remove, has_edge is false while the list still holds the edge |
| Graphs.AppendKeepsWellFormed | Graph.h:114-126 | appending in-range endpoints keeps every list entry in range |
| Graphs.EraseKeepsWellFormed | Graph.h:128-152 | erasing entries keeps every list entry in range |
| Graphs.Graph.constructor | Graph.h:35-50 | the graph starts with an all-false n by n matrix, empty lists and default data |
| Graphs.Graph.AddVertex | Graph.h:96-112 | add_vertex widens the matrix, adds an empty list and the data, and keeps the invariant |
| Graphs.Graph.AddEdge | Graph.h:114-126 | add_edge fails on a bad endpoint and otherwise sets the cell(s) and appends to the list(s) with no duplicate test |
| Graphs.Graph.RemoveEdge | Graph.h:128-152 | remove_edge fails on a bad endpoint and otherwise clears the cell(s) and erases the first match in the list(s) |
| Graphs.Graph.HasEdge | Graph.h:154-159 | has_edge reads the matrix cell, false out of range, and is symmetric in undirected mode |
| Graphs.Graph.GetNeighbors | Graph.h:161-166 | get_neighbors fails on a bad vertex and otherwise returns its list |
| Graphs.Graph.Bfs | Graph.h:190-221 | bfs over the lists lists each reachable vertex once, the start first |
| Graphs.Graph.Dfs | Graph.h:223-256 | dfs over the lists lists each reachable vertex once, the start first |
| Graphs.AddVertexKeeps | Graph.h:96-112 | add_vertex keeps every part of the invariant: rows cover the new count, list entries stay in range, cells outside the corner stay false, an undirected matrix stays symmetric |
| Graphs.WidenRows | Graph.h:100-102 | the loop appends one false cell to every existing row |
| Graphs.FalseRow | Graph.h:104-107 | the loop builds a row of count false cells |
| AdjacencyLists.BfsStep | AdjacencyListGraph.h:204-217 | one dequeue keeps the bfs invariant and outputs one more vertex |
| Matrices.Fit | Matrix.h:42-49 | the constructor keeps r by c when both are positive and falls back to 0 by 0 otherwise |
| Matrices.Filled | Matrix.h:15-26 | initialize_matrix yields r rows of c cells, each equal to the fill value |
| Matrices.Transpose | Matrix.h:119-127 | cell (j, i) of the transpose is cell (i, j) of the matrix |
| Matrices.TransposeTwice | Matrix.h:119-127 | transposing twice gives back the matrix |
| Matrices.AddThenSubtract | Matrix.h:129-153 | subtracting what operator+ added gives back the matrix |
| Matrices.TruncDivRemainder | Matrix.h:333-347 | the integer quotient of element_wise_divide truncates toward zero: the remainder is below the divisor in size and takes the sign of the dividend |
| Matrices.Identity | Matrix.h:279-291 | identity has ones exactly on the diagonal and zeros elsewhere |
| Matrices.IdentityNeutral | Matrix.h:155-170 | multiplying by the identity on either side gives back the matrix |
| Matrices.TransposeHConcat | Matrix.h:446-477 | transposing a horizontal concatenation stacks the transposes vertically |
| Matrices.Submatrix | Matrix.h:232-256 | each cell of the submatrix is the original cell with indices shifted past the excluded row and column |
| Matrices.Sign | Matrix.h:269-273 | the expansion sign is always +1 or -1 |
| Matrices.CofactorZero | Matrix.h:269-273 | a zero in row 0 contributes nothing to the expansion |
| Matrices.IdentityMinor | Matrix.h:232-256 | removing row 0 and column 0 of an identity leaves the next smaller identity |
| Matrices.DetIdentity | Matrix.h:258-277 | the determinant of an identity of size at least 1 is 1 |
| Matrices.DetZeroRow | Matrix.h:258-277 | a matrix whose row 0 is zero has determinant 0 |
| Matrices.SwapRows | Matrix.h:547-559 | swap_rows exchanges the two rows and keeps every other row |
| Matrices.SwapColumns | Matrix.h:561-573 | swap_columns exchanges the two columns in every row and keeps every other cell |
| Matrices.SwapRowsTwice | Matrix.h:547-559 | swapping the same rows twice restores the matrix |
| Matrices.SwapColumnsTwice | Matrix.h:561-573 | swapping the same columns twice restores the matrix |
| Matrices.TransposeSwapRows | Matrix.h:547-573 | swapping rows then transposing equals transposing then swapping the same columns |
| Matrices.Column | Matrix.h:411-420 | column j holds cell (i, j) at position i |
| Matrices.ColumnIsTransposeRow | Matrix.h:411-420 | get_column(j) is row j of the transpose |
| Matrices.DiagSumIdentity | Matrix.h:349-358 | the trace of an n by n identity is n |
| Matrices.DiagSumTranspose | Matrix.h:349-358 | transposing keeps the trace |
| Matrices.Matrix.constructor | Matrix.h:42-49 | a new matrix is rows by cols copies of the value, or 0 by 0 for a non-positive dimension |
| Matrices.Matrix.SetElement | Matrix.h:85-90 | set_element fails outside the grid and otherwise changes that one cell |
| Matrices.Matrix.GetElement | Matrix.h:92-97 | get_element fails outside the grid and otherwise returns that cell |
| Matrices.Matrix.Row | Matrix.h:100-105 | operator[] fails on a bad row and otherwise returns that row of cols cells |
| Matrices.Matrix.IsSquare | Matrix.h:115-117 | is_square holds exactly when rows equal cols |
| Matrices.Matrix.Transposed | Matrix.h:119-127 | transpose returns a new cols by rows matrix equal to Transpose |
| Matrices.Matrix.CombineRows | Matrix.h:129-153 | the cell loops of operator+ and operator- compute Add and Subtract |
| Matrices.Matrix.Plus | Matrix.h:129-140 | operator+ fails on a dimension mismatch and otherwise returns the cell-wise sum |
| Matrices.Matrix.Minus | Matrix.h:142-153 | operator- fails on a dimension mismatch and otherwise returns the cell-wise difference |
| Matrices.Matrix.Times | Matrix.h:155-170 | operator* fails unless cols equals the other's rows and otherwise returns the matrix product |
| Matrices.Matrix.ElementWiseMultiply | Matrix.h:320-331 | element_wise_multiply fails on a dimension mismatch and otherwise returns the cell-wise product |
| Matrices.Matrix.ElementWiseDivide | Matrix.h:333-347 | element_wise_divide fails on a dimension mismatch or any zero divisor and otherwise returns the truncated cell-wise quotients |
| Matrices.Matrix.GetSubmatrix | Matrix.h:232-256 | get_submatrix fails unless square with more than one row and the excluded indices in range, and otherwise returns the Submatrix |
| Matrices.Matrix.SubmatrixRows | Matrix.h:241-254 | the row loop copies every row but the excluded one |
| Matrices.Matrix.RowWithout | Matrix.h:246-252 | the column loop copies every cell of the row but the excluded column |
| Matrices.Matrix.Determinant | Matrix.h:258-277 | determinant fails unless square and otherwise returns Det, the cofactor expansion along row 0 |
| Matrices.Matrix.ExpandRow0 | Matrix.h:267-276 | the expansion loop sums the signed cofactors of row 0 |
| Matrices.Matrix.SignedTerm | Matrix.h:270-273 | one loop step is sign times the row-0 cell times the minor's determinant |
| Matrices.Matrix.MakeIdentity | Matrix.h:279-291 | identity(size) returns a new size by size identity, 0 by 0 when size is not positive |
| Matrices.Matrix.HorizontalConcatenate | Matrix.h:446-460 | horizontal_concatenate fails unless the row counts match and otherwise joins each pair of rows |
| Matrices.Matrix.VerticalConcatenate | Matrix.h:462-477 | vertical_concatenate fails unless the column counts match and otherwise stacks the rows |
| Matrices.Matrix.SwapRowsInPlace | Matrix.h:547-559 | swap_rows fails on a bad index and otherwise exchanges the two rows in place |
| Matrices.Matrix.SwapColumnsInPlace | Matrix.h:561-573 | swap_columns fails on a bad index and otherwise exchanges the two columns in place |
| Matrices.Matrix.GetColumn | Matrix.h:411-420 | get_column fails on a bad index and otherwise returns the column top to bottom |
| Matrices.Matrix.SetRow | Matrix.h:422-432 | set_row fails on a bad index or a wrong-length row and otherwise replaces only that row |
| Matrices.Matrix.SetColumn | Matrix.h:434-444 | set_column fails on a bad index or a wrong-length column and otherwise replaces only that column |
| Matrices.Matrix.Trace | Matrix.h:349-358 | trace fails unless square and otherwise sums the diagonal |
| Matrices.Matrix.MaxElement | Matrix.h:370-383 | max_element fails on an empty matrix and otherwise returns a cell that no cell exceeds |
| Matrices.Matrix.MinElement | Matrix.h:385-398 | min_element fails on an empty matrix and otherwise returns a cell that no cell undercuts |
| Text.Lead | CsvParser.h:13-16 | the start loop stops at the first character that is not whitespace, having passed only whitespace |
| Text.TrimEnd | CsvParser.h:17-20 | the end loop stops at a non-whitespace character or at start, having passed only whitespace |
| Text.StripShape | CsvParser.h:12-25 | trim returns a contiguous piece of the input, cuts only whitespace and leaves no whitespace at either end |
| Text.StripEmpty | CsvParser.h:21-23 | trim returns "" exactly when every character is whitespace |
| Text.StripNoEdges | CsvParser.h:12-25 | a string without whitespace at its ends is its own trim |
| Text.StripIdempotent | CsvParser.h:12-25 | trimming twice is the same as trimming once |
| Text.TrimBounds | CsvParser.h:13-20 | the two index loops compute the bounds of the trimmed text |
| Text.SkipLeading | CsvParser.h:13-16 | the start loop stops at the first character that is not whitespace |
| Text.SkipTrailing | CsvParser.h:17-20 | the end loop stops at the last character that is not whitespace, or just below start |
| Text.Upper | DataStore.h:143-147 | upper-casing maps each character on its own and keeps the length |
| Text.Lower | User.h:462-468 | lower-casing maps each character on its own and keeps the length |
| Text.CaseMapping | DataStore.h:143-147 | case mapping leaves no letter of the other case, is idempotent per character and never touches whitespace |
| Text.CaseIdempotent | DataStore.h:143-147 | upper-casing and lower-casing a string are idempotent |
| CsvParsing.CountChar | CsvParser.h:55-69 | the comma count never exceeds the length |
| CsvParsing.Split | CsvParser.h:55-69 | split always yields at least one token |
| CsvParsing.SplitShape | CsvParser.h:55-69 | split yields one token more than there are commas, and no token holds a comma |
| CsvParsing.JoinSplit | CsvParser.h:55-69 | joining the tokens with commas gives back the line |
| CsvParsing.SplitJoin | CsvParser.h:55-69 | splitting a comma-join of comma-free tokens gives back the tokens |
| CsvParsing.SplitAppend | CsvParser.h:63-65 | comma-free text extends the last token |
| CsvParsing.SplitLine | CsvParser.h:55-69 | the split loop computes Split |
| CsvParsing.Trim | CsvParser.h:12-25 | trim returns the whitespace-stripped token, "" when nothing is left |
| CsvParsing.Uncomma | CsvParser.h:27-35 | remove_commas leaves no comma and drops exactly the commas |
| CsvParsing.RemoveCommas | CsvParser.h:27-35 | the remove_commas loop computes Uncomma |
| CsvParsing.FlattenSplit | CsvParser.h:27-69 | removing commas equals concatenating split's tokens |
| CsvParsing.UncommaNoComma | CsvParser.h:27-35 | a comma-free string is left as it is |
| CsvParsing.ToDouble | CsvParser.h:37-53 | to_double fails with 0 on an empty cleaned token or a failed read and otherwise returns the read value |
| CsvParsing.AcceptRow | CsvParser.h:96-127 | a row is kept only with at least 21 columns and a record that passes validate, dated 2022 |
| CsvParsing.SyntheticRowsShape | CsvParser.h:129-164 | the synthetic years add at most ten valid records with strictly rising years in 2023..2032 |
| CsvParsing.EmitYears | CsvParser.h:129-164 | the year loop emits the valid scaled copies for offsets 1 to 10 in order |
| CsvParsing.TrimAll | CsvParser.h:90-92 | the header keeps one trimmed entry per column |
| CsvParsing.DataRecordsValid | CsvParser.h:84-165 | every record parse emits is valid and dated 2022..2032 |
| CsvParsing.LineRecordsValid | CsvParser.h:96-164 | each data line contributes only valid records dated 2022..2032 |
| CsvParsing.ParseDataLine | CsvParser.h:88-164 | one data line is split, checked for 21 columns, converted, validated and followed by its synthetic years |
| CsvParsing.HeaderColumns | CsvParser.h:88-94 | the header is the trimmed columns of the line |
| CsvParsing.LeadingEmpty | CsvParser.h:85-87 | empty lines before the header change neither the header nor the records |
| CsvParsing.ParseLines | CsvParser.h:72-168 | parse skips empty lines, takes the first non-empty line as the header and applies the row rules to every later line, each data line scaled by its own draws |
| Stocks.Default | Stock.h:39-66 | a default record has empty strings, year 0, zero numbers and is not valid |
| Stocks.Validate | Stock.h:87-104 | validate changes only valid, which holds exactly for a positive price, P/E in [0, 2000], ROE in [-100, 100], a non-empty name and a non-empty sector |
| Stocks.ValidateIdempotent | Stock.h:87-104 | validating twice is validating once |
| Stocks.ComputeDerived | Stock.h:68-85 | compute_derived changes only the four derived fields, each the stated ratio or 0 when its divisor guard fails |
| Stocks.DerivedKeepsValidity | Stock.h:68-104 | validate and compute_derived commute, because they touch disjoint fields |
| Stocks.DefaultRejected | Stock.h:39-104 | a default record never passes validate |
| CsvParsing.ConsumeLine | CsvParser.h:85-164 | one line: an empty line is skipped, the first non-empty line becomes the header, a later line adds its data records |
| Users.EscapeCsv | User.h:98-112 | escape_csv computes Escape: comma becomes \c, newline \n, backslash \\, and the result holds no comma and no newline |
| Users.UnescapeCsv | User.h:114-135 | unescape_csv computes Unescape: the three escape pairs are decoded, any other backslash is kept |
| Users.UnescapeFrom | User.h:116-132 | one step of unescape_csv: a recognised pair yields one character and skips two, anything else is copied |
| Users.UnescapeEscape | User.h:98-135 | unescape_csv(escape_csv(s)) == s for every string |
| Users.UnescapeEscapeChar | User.h:98-135 | the escape of one character followed by any text decodes to that character followed by the decoding of the text |
| Users.EscapeSeparators | User.h:98-112 | an escaped field never holds the separator comma or a newline |
| Users.EscapePlain | User.h:98-112 | a field without comma, newline or backslash is written unchanged |
| Users.Tokens | User.h:190-206 | the load tokenizer always yields at least one token |
| Users.RunAppend | User.h:190-206 | tokenizing a concatenation is tokenizing the second part from the state the first part leaves |
| Users.LoadTokens | User.h:190-206 | the load_users loop computes Tokens: a backslash swallows the next character, an unescaped comma ends a token |
| Users.RunEscapeChar | User.h:190-206 | tokenizing the escape of one character appends exactly its loaded form to the current token |
| Users.RunEscaped | User.h:190-206 | tokenizing an escaped field never ends a token and appends the loaded form of the field |
| Users.RunSaved | User.h:190-206 | tokenizing a saved line yields one token per saved field, each the loaded form of that field |
| Users.LoadSavedAsWritten | User.h:190-206 | as written, a line saved by save_users tokenizes into one token per field, each the field with every escape pair reduced to its second character |
| Users.LoadedAllLength | User.h:330-337 | loading the saved fields keeps their number and handles each field on its own |
| Users.CommaFieldCorrupted | User.h:190-215 | as written, a field "a,b" saved and loaded again comes back as "acb" |
| Users.SaveLoadRoundTrip | User.h:190-215 | with escape pairs kept by the tokenizer, every saved field loads back unchanged and the field count is kept |
| Users.NormalizeUsername | User.h:138-153 | normalize_username strips space, tab, CR and LF from both ends, and is "" exactly when the name is all such characters |
| Users.Fold | User.h:64-73 | the forward multiply-add-modulo loop stays below the prime 2147483647 |
| Users.FoldBack | User.h:79-81 | the backward multiply-add-modulo loop stays below the prime |
| Users.HashValueBound | User.h:55-81 | the hash value is below 2147483647 |
| Users.NoWrapAround | User.h:64-81 | below the prime no step of the 64-bit unsigned arithmetic wraps around |
| Users.Hex | User.h:84-86 | `ss << hex` yields a nonempty string of lower-case hexadecimal digits |
| Users.DigitRoundTrip | User.h:84-86 | each hexadecimal digit reads back as its value |
| Users.HexValueOfHex | User.h:84-86 | the hexadecimal text of n reads back as n |
| Users.HexLength | User.h:84-86 | a value below the prime has at most 8 hexadecimal digits |
| Users.HexLengthBelow | User.h:84-86 | a value below 16^k has at most k hexadecimal digits |
| Users.HexValueLeadingZero | User.h:89-91 | a leading zero does not change the value read |
| Users.PadZerosShape | User.h:89-91 | left-padding with zeros reaches the width and keeps the text as a suffix, leaves text already that long unchanged, and keeps its value |
| Users.HashTextShape | User.h:55-94 | the hash text is 16 hexadecimal digits whose value is the hash value |
| Users.HashPassword | User.h:55-94 | hash_password returns 16 lower-case hexadecimal digits that read back as the hash value |
| Users.NormalizeEmail | User.h:453-468 | the signup loops trim spaces and tabs from both ends and lower-case A-Z |
| Users.LowerEmail | User.h:470-478 | the stored e-mail is lower-cased character by character |
| Users.EmailExists | User.h:784-820 | email_exists is true exactly when some stored e-mail, lower-cased, equals the normalized given e-mail |
| Users.NormalEmailIdempotent | User.h:453-468 | normalizing an already normalized e-mail changes nothing |
| Users.StoredSpaceNeverMatches | User.h:470-487 | as written, an e-mail stored with a leading space never matches itself, since only the given side is trimmed |
| Users.NormalizedMatching | User.h:470-487 | with the stored side normalized too, every e-mail matches itself, and for e-mails stored normalized the two tests agree |
| Security.CRem | security.h:19 | C++ `%` by 127 truncates toward zero: the remainder lies strictly between -127 and 127 and takes the sign of the dividend |
| Security.MixNonNegative | security.h:18 | the mixing polynomial of non-negative char and counters is non-negative |
| Security.Merge | security.h:12-44 | the hash text has one character per password character plus one per salt character |
| Security.MergeTakesPass | security.h:23-24 | on a tie or when the salt is used up the password side writes and advances |
| Security.MergeTakesSalt | security.h:23 | when the salt's code is larger, or the password is used up, the salt side writes and advances |
| Security.CodeInRange | security.h:18-19 | the code of a non-negative char is in 0..126 and char() keeps it |
| Security.MergeCodes | security.h:12-44 | with no negative char in password or salt, every character of the hash is one of the codes 0..126 |
| Security.HashPass | security.h:12-44 | hash's three loops compute Hash, whose length is the password length plus 16 |
| Security.MergeLoop | security.h:16-26 | the merge loop stops when either side is used up, having written the merged prefix |
| Security.PassLoop | security.h:27-34 | the second loop writes the codes of the rest of the password |
| Security.SaltLoop | security.h:35-42 | the third loop writes the codes of the rest of the salt, completing Hash |
| Security.SaltFrom | security.h:45-55 | a salt is 16 characters, each rand() % 127 and so below 127 |
| Security.CreateSalt | security.h:45-55 | create_salt builds SaltFrom of the draws, one character per position |
| Security.Guard.constructor | security.h:57-61 | the object keeps a 16-character salt and the hash of the given password |
| Security.Guard.Check | security.h:63-67 | check is true exactly when s hashes to the stored text; the original password passes, and one of another length never does |
| Security.MergeStep | security.h:17-24 | one turn writes the larger code and advances its side; what is written stays a prefix of the merged hash |
| StoreKeys.NormalizeKey | DataStore.h:131-149 | normalize_key computes Key: blank-trimmed, a-z upper-cased; never longer, no lower-case letter, no blank at either end |
| StoreKeys.KeyShape | DataStore.h:131-149 | a key is no longer than its input, holds no lower-case ASCII letter and has no space, tab, CR or LF at either end |
| StoreKeys.KeyIdempotent | DataStore.h:131-149 | normalize_key is idempotent |
| StoreKeys.PeKey | DataStore.h:19-42 | the StockPeKey of record i refers to i and is ordered by its P/E, then its company name |
| StoreKeys.RoeKey | DataStore.h:44-67 | the StockRoeKey of record i refers to i and is ordered by its ROE, then its company name |
| StoreKeys.FeatureValue | DataStore.h:585-611 | feature_value is 0 for an id outside 0..7 and the P/E for id 1 |
| StoreKeys.SquareFacts | DataStore.h:669-672 | a square is non-negative, even, and zero exactly at zero |
| StoreKeys.DiffSqFacts | DataStore.h:669-672 | diff_sq is symmetric, non-negative, and zero exactly on equal arguments |
| StoreKeys.DistanceFacts | DataStore.h:659-667 | distance_between is symmetric, non-negative, and zero exactly when the five features are equal |
| StoreKeys.TrendScore | DataStore.h:380-393 | trend_flag's vote lies between -2 and 3 |
| StoreKeys.TrendFlag | DataStore.h:376-401 | trend_flag is "No stock" exactly for a null record, and otherwise one of Improving, Declining, Stable |
| StoreKeys.TrendCases | DataStore.h:376-401 | ROE and P/E expectations both better give Improving, both worse give Declining, none moving without growth gives Stable, and Improving needs one of them better |
| StoreKeys.StrategyWeights | DataStore.h:318-345 | the four weights are positive and sum to 1; strategy 0 weighs growth 0.5, 1 value 0.5, 2 dividend 0.5, any other id is balanced |
| StoreKeys.ValueScore | DataStore.h:349-352 | the value score is 0 when pe <= 0 and otherwise the positive inverse of the P/E |
| StoreKeys.DividendScore | DataStore.h:355-358 | the dividend score is 0 unless the price is positive, and then the dividend yield |
| StoreKeys.RecKey | DataStore.h:291-315 | the RecScore of record i refers to i and is ordered by its weighted score, then its company name |
| StoreKeys.ScoreMonotoneInGrowth | DataStore.h:349-359 | a higher expected growth never lowers the score, and a negative P/E scores like a P/E of 0 |
| StoreIndex.Range | DataStore.h:99-102 | load_csv inserts the records 0 .. n - 1, n of them |
| StoreIndex.RangeInArena | DataStore.h:99-102 | those positions are all records of the arena |
| StoreIndex.LastWinsMeaning | DataStore.h:108-109 | in by_name a key is present iff some inserted record had it, and it maps to the last such record (last write wins) |
| StoreIndex.GroupedMembers | DataStore.h:110-119 | in sectors a key is present iff some inserted record had it, and its list is exactly those records in insertion order |
| StoreIndex.MembersOfRange | DataStore.h:99-119 | with records inserted in arena order, a sector's list holds exactly the records of that sector |
| StoreIndex.MembersOfRangeIncreasing | DataStore.h:99-119 | and lists them in increasing arena order |
| StoreIndex.NameKeys | DataStore.h:108 | one normalized name per inserted record |
| StoreIndex.SectorKeys | DataStore.h:111 | one normalized sector per inserted record |
| StoreIndex.PeKeys | DataStore.h:121-124 | one P/E handle per inserted record |
| StoreIndex.RoeKeys | DataStore.h:126-128 | one ROE handle per inserted record |
| StoreIndex.PeKeysAreHandles | DataStore.h:121-124 | every P/E handle pushed is the handle of an inserted record |
| StoreIndex.RoeKeysAreHandles | DataStore.h:126-128 | every ROE handle pushed is the handle of an inserted record |
| StoreIndex.PeTree | DataStore.h:121-123 | the by_pe tree after the insertions is balanced and strictly sorted by P/E, then name |
| StoreIndex.SeqInsertKeeps | AVLTree.h:71-82 | inserting into the sorted contents keeps every handle present up to equivalence, adds the new one, and adds nothing else |
| StoreIndex.PeTreeCovers | DataStore.h:121-123 | by_pe holds, for each inserted record, its handle or one with the same P/E and name |
| StoreIndex.PeTreeOnly | DataStore.h:121-123 | by_pe holds nothing but handles of inserted records |
| StoreIndex.PriceBounds | DataStore.h:243-248 | over a non-empty sector the running price minimum and maximum are prices of the sector that bound all its prices |
| StoreQueries.SectorRecordsMeaning | DataStore.h:159-169 | filter_by_sector lists a record iff it is in the arena and its sector normalizes like the query |
| StoreQueries.SectorRecordsIncreasing | DataStore.h:159-169 | filter_by_sector lists records in strictly increasing arena order, so none twice |
| StoreQueries.SectorRecordsInArena | DataStore.h:159-169 | every record listed is a record of the arena |
| StoreQueries.AccumulatedStep | DataStore.h:239-249 | one record of the sector adds its P/E, ROE and yield to the sums, updates the price extremes and adds one to the count |
| StoreQueries.ScannedIsAccumulated | DataStore.h:236-251 | after the first n records, sector_stats' loop has accumulated exactly the sector's records among them |
| StoreQueries.ScanGivesSummary | DataStore.h:222-259 | the finished loop, averaged, gives the sector's summary, whose count is the number of the sector's records |
| StoreQueries.EmptySectorSummary | DataStore.h:223-257 | a sector without records has count 0, zero averages, and the two 1e18 sentinels |
| StoreQueries.OwnSectorCounted | DataStore.h:236-251 | the sector of any arena record has a positive count |
| StoreQueries.TotalWithin | DataStore.h:240-242 | a sum of values within [lo, hi] lies between count * lo and count * hi |
| StoreQueries.AverageWithin | DataStore.h:253-257 | an average of values within [lo, hi] lies within [lo, hi] |
| StoreQueries.SectorAverageWithin | DataStore.h:222-259 | when each record of a non-empty sector has P/E in [lo, hi], so has the sector's average P/E |
| StoreQueries.SectorPriceBounds | DataStore.h:243-248 | in a non-empty sector within the sentinels, min_price and max_price are prices of the sector bounding all of them |
| StoreQueries.CompareTextFields | DataStore.h:269-288 | the three verdicts of compare_vs_sector sit at fixed places, each "below" exactly when the record is under the sector average of that metric |
| StoreQueries.SideField | DataStore.h:271-275 | each verdict starts with "below" exactly when it is the below verdict |
| StoreQueries.ComparisonOfRecord | DataStore.h:261-289 | for a record of the arena the sector is never unavailable, and the P/E verdict is "below" exactly when its P/E is under the sector average |
| StoreQueries.PeRange | DataStore.h:171-177 | collect_pe_range's scan lists at most n records, all below n |
| StoreQueries.PeRangeMeaning | DataStore.h:171-177 | a record is listed iff it is in the arena and its P/E lies within the closed range |
| StoreQueries.SortedByPe | DataStore.h:178-180 | a permutation of arena records sorted by feature_value 1 is sorted by P/E |
| StoreQueries.RecKeys | DataStore.h:346-364 | recommend pushes one score handle per record |
| StoreQueries.RecKeysAreHandles | DataStore.h:346-364 | every handle pushed is the score handle of the record it refers to |
| Similarity.NearnessAt | DataStore.h:649-652 | the closeness table holds build_similarity_graph's test for every pair of records |
| Similarity.VisitedNext | DataStore.h:649-650 | moving the double loop from (i, j) to (i, j + 1) visits exactly the pair {i, j} |
| Similarity.FarStep | DataStore.h:652 | visiting a pair that is not close adds no edge |
| Similarity.NearStep | DataStore.h:652-653 | visiting a close pair adds the edge in both directions |
| Similarity.EdgeStep | DataStore.h:651-654 | visiting (i, j) adds the undirected edge exactly when the pair is close |
| Similarity.RowDone | DataStore.h:649-650 | at the end of row i the visited pairs are those at the start of row i + 1 |
| Similarity.BuildSimilarityGraph | DataStore.h:643-657 | an undirected graph with one vertex per record, vertex u carrying u, and edge (u, v) exactly when u != v and their distance is below 0.3 |
| Similarity.CandidatesMeaning | DataStore.h:408-414 | the candidates of similar are exactly the other records, each paired with its distance |
| Similarity.CandidatesCount | DataStore.h:408-414 | there are n - 1 candidates when the query is a record of the arena |
| Similarity.DistancePairs | DataStore.h:408-419 | similar's first two loops pair every other record with its distance from the query, n - 1 pairs |
| Similarity.NearestFirstBy | DataStore.h:420-435 | the leading records of the distance-sorted candidates are other records, nearest first, and no record left out is nearer than one taken |
| Similarity.NearestFirst | DataStore.h:403-436 | the same over the records' distances from the query record |
| DataStores.Refs | DataStore.h:190 | the records a list of handles refers to, in order |
| DataStores.DrainStep | DataStore.h:187-192 | popping the top of a heap extends a best-first drain |
| DataStores.DrainDone | DataStore.h:187-193 | a finished drain took its keys best-first from the heap's contents |
| DataStores.DrainMax | DataStore.h:185-193 | the loop takes min(n, size) handles best-first from a max-heap |
| DataStores.DrainMin | DataStore.h:198-206 | the loop takes min(n, size) handles lowest-first from a min-heap |
| DataStores.NamesStep | DataStore.h:108-109 | one insertion makes the record's normalized name map to it |
| DataStores.SectorsStep | DataStore.h:110-119 | one insertion appends the record to its sector's list, creating the list when the sector is new |
| DataStores.HandlesStep | DataStore.h:121-128 | one insertion adds the record's P/E handle to the tree and min-heap, its ROE handle to the max-heap |
| DataStores.InsertName | DataStore.h:108-109 | by_name after the insertion maps every key to its last record |
| DataStores.InsertSector | DataStore.h:110-119 | sectors after the insertion lists every sector's records in insertion order |
| DataStores.InsertHandles | DataStore.h:121-128 | tree and heaps after the insertion hold the handles of all inserted records |
| DataStores.InsertInto | DataStore.h:107-129 | insert_stock keeps every index what inserting the records in order builds |
| DataStores.EmptyIndexedAnyArena | DataStore.h:79-80 | empty indices describe inserting nothing into any arena |
| DataStores.IndexAll | DataStore.h:99-102 | inserting every record in arena order leaves each index describing the whole arena |
| DataStores.SectorIndexAgrees | DataStore.h:110-119 | once every record is inserted in order, the sectors index lists under a key exactly what filter_by_sector returns |
| DataStores.AppendPeRange | DataStore.h:171-177 | collect_pe_range's loop appends the records with P/E in range, in arena order |
| DataStores.TakeFirst | DataStore.h:432-434 | the last loop of similar takes the first min(k, size) sorted records |
| DataStores.DataStore.constructor | DataStore.h:79-80 | a new store has an empty arena, empty indices and an undirected graph with no vertex |
| DataStores.DataStore.Clear | DataStore.h:82-90 | clear replaces every index and the graph by fresh empty ones and empties the arena |
| DataStores.DataStore.InsertStock | DataStore.h:107-129 | insert_stock keeps every index what inserting the records in order builds |
| DataStores.DataStore.LoadCsv | DataStore.h:92-105 | load_csv fails and leaves an empty store when the file cannot be opened; otherwise the arena is the parsed records, all indexed in order, with the similarity graph over them |
| DataStores.DataStore.IndexArena | DataStore.h:99-103 | every record inserted in arena order and the similarity graph built over the arena |
| DataStores.DataStore.SearchByName | DataStore.h:151-157 | a record is found iff some inserted record's name normalizes like the query, and it is the last such record inserted |
| DataStores.DataStore.FilterBySector | DataStore.h:159-169 | filter_by_sector returns exactly the records whose sector normalizes like the query, in arena order |
| DataStores.DataStore.SectorStatsOf | DataStore.h:222-259 | sector_stats returns the sector's summary: averages over its records (0 when there are none), price extremes and count |
| DataStores.DataStore.CompareVsSector | DataStore.h:261-289 | compare_vs_sector returns "No stock" for a null record and otherwise the verdicts against its sector |
| DataStores.DataStore.SortByMetric | DataStore.h:209-211 | sort_by_metric leaves a permutation of the vector in non-decreasing feature_value order |
| DataStores.DataStore.CollectPeRange | DataStore.h:171-181 | collect_pe_range appends exactly the records with P/E in range, and sorts them by P/E when more than one is held |
| DataStores.DataStore.SortedCopyByPe | DataStore.h:178-180 | the collected records come back as a permutation sorted by P/E |
| DataStores.DataStore.TopNRoe | DataStore.h:183-194 | top_n_roe returns min(n, inserted) inserted records, best ROE first with ties by name, none left out beating one returned, and the stored heap untouched |
| DataStores.DataStore.LowestNPe | DataStore.h:196-207 | lowest_n_pe returns min(n, inserted) inserted records, lowest P/E first with ties by name, none left out below one returned, and the stored heap untouched |
| DataStores.DataStore.Recommend | DataStore.h:317-374 | recommend returns min(topN, records) records in non-increasing score order, ties by name, none left out scoring above one returned |
| DataStores.DataStore.Similar | DataStore.h:403-436 | similar is empty for an index outside the arena; otherwise min(k, n - 1) other records, never the query, nearest first, none left out nearer than one returned |
| DataStores.NameLookup | DataStore.h:151-157 | the name index holds a key iff some inserted record's name normalizes to it, and then holds the last such record |
| DataStores.DataStore.ResetIndices | DataStore.h:83-89 | clear's fresh indices over an empty arena satisfy the store invariant |
| DataStores.DataStore.IndexRecords | DataStore.h:99-102 | inserting every arena record in order leaves the indices describing exactly records 0 .. n - 1 |
| Similarity.LabelVertices | DataStore.h:645-647 | the first loop makes vertex u carry u and leaves the lists empty |
| Similarity.ConnectRow | DataStore.h:650-655 | after the inner loop for record i, the lists hold exactly the close pairs visited so far |
| StoreQueries.MeanWithin | DataStore.h:253-255 | an average of P/E values that all lie in [lo, hi] lies in [lo, hi] |
| StoreQueries.PeVerdict | DataStore.h:270-275 | the text has 78 characters and its P/E verdict reads "below" exactly when the record's P/E is under the sector average |
| StoreQueries.RoeVerdict | DataStore.h:276-281 | the ROE verdict reads "below" exactly when the record's ROE is under the sector average |
| StoreQueries.DivVerdict | DataStore.h:282-287 | the dividend yield verdict reads "below" exactly when the record's yield is under the sector average |
| StoreKeys.UpperCopy | DataStore.h:140-147 | the copy loop yields s[start..end] with a..z upper-cased |
| Sorting.SwapKeepsElements | main.cpp:136-138 | exchanging two positions keeps the elements and their multiplicities |
| Sorting.ExchangeSort | main.cpp:133-142 | the nested exchange loops leave a permutation of the input in non-decreasing key order |
| QuickSorts.Chain | DataStore.h:613-641 | two permutations of a range that keep the rest compose into one |
| QuickSorts.BoundsSurvive | DataStore.h:635-640 | permuting a range keeps a bound that held on every element of it |
| QuickSorts.Widen | DataStore.h:635-640 | a permutation of a sub-range is a permutation of the enclosing range that keeps the rest |
| QuickSorts.SwapInside | DataStore.h:627-633 | a swap inside a range keeps the multiset of that range |
| QuickSorts.SwapStep | DataStore.h:627-633 | the partition's swap keeps the bounds left of i and right of j and keeps the permutation |
| QuickSorts.Combine | DataStore.h:613-641 | two sorted parts separated by the pivot make the whole range sorted |
| QuickSorts.LeftStage | DataStore.h:635-637 | sorting the left part keeps the permutation and the pivot bounds |
| QuickSorts.RightStage | DataStore.h:638-640 | sorting the right part keeps the permutation and the pivot bounds |
| QuickSorts.LeftStaysSorted | DataStore.h:638-640 | sorting the right part leaves the sorted left part untouched |
| QuickSorts.Partition | DataStore.h:617-634 | the partition loop leaves keys at most the pivot left of i and at least it right of j, with j < i, permuting only [l, r] |
| QuickSorts.ScanUp | DataStore.h:621-623 | the upward scan stops at a key not below the pivot, before the sentinel, with every key it passed at most the pivot |
| QuickSorts.ScanDown | DataStore.h:624-626 | the downward scan stops at a key not above the pivot, after the sentinel, with every key it passed at least the pivot |
| QuickSorts.QuickSort | DataStore.h:613-641 | quick_sort leaves arr[l..r] a permutation of itself in non-decreasing key order and nothing else moves |
| QuickSorts.SortByMetric | DataStore.h:209-211 | sort_by_metric leaves the whole vector a permutation of itself in non-decreasing metric order |
| Sorting.ExchangePass | main.cpp:135-141 | the inner loop keeps the elements and leaves position i no larger than anything after it, so one more place is settled |
| Sorting.ExchangeStep | main.cpp:136-140 | one compare-and-swap keeps the elements and the settled places, and r[i] stays no larger than every element compared so far |
| Menu.NormalizeUsername | main.cpp:71-84 | main.cpp's normalize_username strips only spaces and tabs from both ends, and is "" exactly when the name is all spaces and tabs |
| Menu.Names | main.cpp:105 | the company names of the records, position by position |
| Menu.Years | main.cpp:106 | the years of the records, position by position |
| Menu.ReplaceDistinct | main.cpp:105-108 | replacing a listed record by a later one of the same name keeps the names pairwise different |
| Menu.ReplaceCovers | main.cpp:105-110 | after a replacement every name seen so far is still listed |
| Menu.OthersLatest | main.cpp:104-111 | the entries not replaced stay the latest of their names |
| Menu.FoundLatest | main.cpp:105-108 | an entry is replaced only by a strictly later year, so it stays the latest (first among equal years) of its name |
| Menu.NewDistinct | main.cpp:113-115 | appending a record whose name is not listed keeps the names pairwise different |
| Menu.NewCovers | main.cpp:113-115 | appending a record with a new name keeps every name seen so far listed |
| Menu.NewLatest | main.cpp:113-115 | a record with a new name is the latest of that name so far |
| Menu.StepFound | main.cpp:104-111 | one step of the loop for a name already listed keeps the loop's invariant |
| Menu.StepNew | main.cpp:113-115 | one step of the loop for a new name keeps the loop's invariant |
| Menu.UniqueLatest | main.cpp:99-117 | unique_latest_companies lists each company name exactly once, each by a record of the maximum year for that name (the first among ties) |
| Menu.SameName | main.cpp:127-131 | the indices of exactly the records named like the base record |
| Menu.CollectHistory | main.cpp:122-143 | empty for a base index out of range; otherwise exactly the records sharing the base record's name, each once, in non-decreasing year |
| Menu.WrapInside | main.cpp:501-524 | a position inside the list is its own remainder |
| Menu.WrapEnds | main.cpp:509-523 | one past the last wraps to 0 and one before the first wraps to the last |
| Menu.Up | main.cpp:501-514 | the up arrow moves the highlight to (selected - 1) mod total and keeps offset <= selected < offset + page <= total |
| Menu.Down | main.cpp:515-524 | the down arrow moves the highlight to (selected + 1) mod total and keeps offset <= selected < offset + page <= total |
| Menu.Pick | main.cpp:494-526 | q or Q cancels, Enter chooses the highlighted item, and a chosen index is always in range |
| Menu.PickOption | main.cpp:460-528 | pick_option returns -1 for an empty list, otherwise the outcome of the keys from the top of the list, always an index in range when one is chosen |
| Menu.UpDownInverse | main.cpp:501-524 | down undoes up and up undoes down on the highlighted item |

## Left out

- Memory management is not modelled: destructors, `new`/`delete`, move constructors and move assignments of every container, and `delete_whole` in AVL.h. Node chains are `seq` fields and AVL nodes are datatype values, so node aliasing and in-place pointer rewiring are not captured; only the resulting contents and shapes are.
- Vectors.Vector.constructor: requires a positive initial capacity. With capacity 0 (Vector.h:24-26, or a moved-from vector, 37-42), `push_back` doubles 0 to 0 and writes past the buffer.
- Arrays.Array.constructor: requires a positive initial capacity, for the same reason (Array.h).
- HashMaps.HashMap.constructor: requires a positive capacity; `hash_function` takes a remainder by `capacity_`.
- `HashMap::hash_function` folds the bytes of the key object (HashMap.h:21-36). For a `std::string` those are not its characters, so the bytes are the constructor parameter `keyBytes`; the fold, the remainder and the sign fix are modelled over them.
- HashMaps.HashMap.Contains, Get, Index, Erase and Insert assume that equal keys hash alike: `keyBytes` depends only on the key's value. The program does not guarantee this. `hash_function` reads the `sizeof(Key)` bytes of the key object (HashMap.h:21-30). For a `std::string` those bytes hold the data pointer and the capacity, and a short string's pointer points into the object itself. So two equal strings held in different objects generally land in different buckets, and a lookup through one of them may miss a key stored through the other. The contracts below rely on the same assumption:
  - DataStores.DataStore.SearchByName: `search_by_name` (DataStore.h:151-156) may report a stored name as not found.
  - DataStores.InsertSector: `insert_stock`'s `sectors.contains` test (DataStore.h:112-118) may miss an existing sector, which would then get a second node with a new list.
  - DataStores.SectorIndexAgrees: this agreement with `filter_by_sector` holds only under the assumption.
  - Users.EmailExists: the `users.contains` test (User.h:805) may skip a stored user. The model takes the stored e-mails of every listed user.
- Integer widths: container sizes, matrix entries, the determinant and `int` metrics are unbounded. 32-bit overflow there is not modelled. `hash_password` is the exception: its 64-bit arithmetic is proved never to wrap (Users.NoWrapAround).
- Floating point: metrics and averages are exact reals, with no rounding. `distance_between` ends in `sqrt`; the model keeps the squared distance and the squared threshold 0.09, which orders records the same way.
- LinearRegression.h and `DataStore::train_linear_regression` (DataStore.h:438-582) are left out: floating-point least squares and error metrics.
- Console and file I/O are left out:
  - CSV file reading is the sequence of lines, or `None` when the file cannot be opened;
  - `load_users`, `save_users`, `signup`, `login`, `username_exists` and `get_all_usernames` are modelled only through the escaping, the tokenizer, the hash and the e-mail comparison they use;
  - `export_*_to_csv` and `load_currencies` in main.cpp.
- Randomness and clocks are parameters: `srand`/`time`/`rand` in `create_salt` (`draw`), the CSV parser's synthetic price noise (`noise`, indexed by the data line and the year offset, so each line gets its own draws), and User.h's `generate_salt` (the salt is an argument of the hash). The mapping of `rand()` values to the ranges of CsvParser.h:133-136 is not modelled; the factors are arbitrary reals.
- `std::istringstream` number extraction in CsvParser.h and User.h is the parameter `read`. Its parsing of numbers is not modelled.
- Printing is not modelled: AVL.h `inOrder` and the Binary_Tree_Lib.h `inorder`/`preorder`/`postorder`/`level_order` only write to `cout`. Their order is captured by the `InOrder` function and by the level-order sequence.
- main.cpp is modelled only in part:
  - not modelled: menu rendering, ANSI colours, `system(...)` calls, the trading simulator (main.cpp:1156-1487), the CAGR and volatility analysis (main.cpp:365-440), and `convert_currency`;
  - modelled: the cursor loop of `pick_option` (main.cpp:460-528);
  - not modelled separately: `browse_companies`, `browse_sorted_list`, `pick_company_index` and `pick_company_index_subset` (main.cpp:184-340, 561-700), which repeat that cursor arithmetic around their own rendering.
- plot_company.py and plot_currency.py are matplotlib plotting and are not part of this model.
- The Matrix.h members not in the core are left out:
  - the scalar operations and operators;
  - `operator==` and `operator!=`;
  - `power`, `create_identity`, `sum_all_elements`, `fill` and `fill_diagonal`;
  - the shape predicates `is_symmetric`, `is_diagonal`, `is_upper_triangular` and `is_lower_triangular`;
  - the copy and move operations.
  
  `get_row` is covered by the row access `Row`.
- Graph.h and AdjacencyListGraph.h: the copy and move operations, and the `num_vertices`/`is_directed` getters (fields of the classes here), are not separate members.
- Users.LoadTokens: `load_users` reads only the first six to ten tokens into a `User` and parses the age and credit fields with `stringstream`; only the tokenizer and the string fields' unescaping are modelled.
- Security.Guard: the `count` field is reset by every hash and never read; it is kept at 0 and has no other role.
- AvlTrees.AVLTree.Search: `operator==` of the P/E handle compares record pointers, modelled as equal positions. The contract states what is found only when the stored handles of the record agree with the query's P/E and name, which holds for handles built from the same arena.

## Findings

| source | as written | input that shows it | evidently intended | confidence | as-written member | corrected member |
|---|---|---|---|---|---|---|
| User.h:190-215 | the load tokenizer drops every backslash and keeps the next character literally, and then `unescape_csv` runs over what is left, so the escape pairs `save_users` wrote are gone | a field `a,b` is saved as `a\cb` and loads back as `acb` | each field loads back as it was saved: the tokenizer keeps escape pairs for `unescape_csv` to decode | not executed; high | Users.CommaFieldCorrupted | Users.SaveLoadRoundTrip |
| User.h:470-487 | `signup` compares the trimmed, lower-cased given e-mail with the stored e-mails lower-cased but not trimmed, and it stores the raw, untrimmed e-mail | a user signs up with ` a@b.c` (leading space); signing up again with ` a@b.c` is not seen as a duplicate, and `email_exists(" a@b.c")` is false | store the normalized e-mail (or normalize both sides), so a registered e-mail always matches itself | not executed; medium | Users.StoredSpaceNeverMatches | Users.NormalizedMatching |
