# CivicLink core in Dafny

CivicLink is a municipal services portal. Citizens report issues such as broken streetlights or
leaking pipes, follow the status of their service requests, browse community events, and earn
engagement points and badges. This project models the core of that system in Dafny and proves
properties of the model:

- **Issue store** (`IssueService`). A singly linked list of issues (`IssueLinkedList`), a
  max-heap on priority (`IssuePriorityQueue`) and a bounded activity log (`ActivityStack`).
  Issue identifiers come from a counter. The linked list is a class over heap-allocated nodes.
  Its `Add`, `GetById`, `Remove` and `GetAll` walk the `next` links as the source does.
- **Service-request indexes** (`ServiceRequestService`). After each rebuild from a snapshot of
  the issue store, four indexes hold that snapshot:
  - an unbalanced binary search tree (`IssueSearchTree`);
  - an AVL tree (`AVLSearchTree`);
  - a binary heap that, despite its name `ServiceRequestMinHeap`, keeps the highest priority
    at the root;
  - a weighted similarity graph (`ServiceRequestGraph`). It supports breadth- and depth-first
    walks, the nearest related requests, and Kruskal's minimum spanning tree over a
    disjoint-set forest.
- **Similarity rules**. The weight and the label of the relationship between two requests,
  built from category, location words, creation time and priority.
- **Gamification** (`GamificationService`). Per-user engagement records, the level table, the
  badge catalogue and its earning rules, and the award loop. Also the points that the home
  controller credits for reporting an issue.
- **Events** (`EventService`). Event creation, search with term, category and date filters,
  the set of days that have events, search tracking, and recommendations.

Modules follow the source's classes:

| file | contents |
|---|---|
| `domain.dfy` | the issue record and lookup by identifier |
| `issue_list.dfy` | the linked list |
| `heap_order.dfy` | the shared priority order and heap shape |
| `issue_queue.dfy` | `IssuePriorityQueue` |
| `request_heap.dfy` | `ServiceRequestMinHeap` |
| `activity_stack.dfy` | `ActivityStack` |
| `issue_service.dfy` | `IssueService` |
| `key_index.dfy` | the BST |
| `balanced_key_index.dfy` | the AVL tree |
| `relationship_graph.dfy` | the graph |
| `union_find.dfy` | Kruskal's parent dictionary |
| `service_requests.dfy` | `ServiceRequestService` |
| `gamification.dfy` | gamification |
| `points.dfy` | the controller's points |
| `events.dfy` | `EventService` |
| `sorting.dfy`, `seqs.dfy`, `text.dfy` | stand-ins for LINQ and string calls |
| `wrappers.dfy` | `null` and exceptions as `Option` and `Result` |

Objects whose fields the source updates in place are classes; the rest are values:

- **Classes**: the list and its nodes, both heaps, the activity stack, the graph, the
  disjoint-set forest and the services.
- **Values**: issues, events, badges and engagement records are datatypes. The search trees
  are datatype values held in a class with `root` and `count` fields.
- **Heaps**: each keeps its list as a `seq` field. `HeapifyUp` and `HeapifyDown` are `while`
  loops proved against the heap-shape predicates of `heap_order.dfy`.

Behaviours of the code that the model keeps as written:

- `GetParentIndex(0)` is `(0 - 1) / 2`, which is 0 in C# arithmetic. So `HasParent` holds at
  the root of `ServiceRequestMinHeap` (`HeapOrder.RootIsOwnParent`).
- Both search trees count every `Insert` call, duplicates included. A duplicate identifier
  leaves the tree unchanged: the first record wins.
- When `ActivityStack` is full, `Push` re-pushes the surviving entries newest first. That
  leaves them in reverse order beneath the new entry (`Activity.PushedAtBound`,
  `Activity.PushedExample`).
- `UpdateIssueAsync` rewrites the shared issue object, so the priority queue sees the new
  priority without being re-heapified. An update that raises a priority can therefore break the
  queue's heap order (`IssueQueue.RefreshedMayBreakHeap`). The queue's contracts are stated as
  "heap order before implies heap order after".
- `DeleteIssueAsync` removes the issue from the list but not from the priority queue.
- `AddVertex` replaces an edge list that `AddEdge` created earlier for the same identifier.
- The AVL fallback in `GetRequestByIdAsync` never finds a request the BST missed, because both
  trees hold the same snapshot.

## Model

| member | source | states |
|---|---|---|
| Domain.Ordinal | Models/Issue.cs:56-62 | the declared values of the priorities lie in 1..4 |
| Domain.IdsOf | Models/DataStructures.cs:32-42 | a set containing exactly the identifiers of the records |
| Domain.FirstWithId | Models/DataStructures.cs:32-42 | none exactly when no record has the identifier; otherwise a record of the sequence carrying it |
| Domain.FirstWithIdAppend | Models/DataStructures.cs:13-42 | a lookup after appending finds the earlier match first, else the appended record when its identifier matches |
| Domain.RemoveFirst | Models/DataStructures.cs:56-79 | removal yields a sub-multiset of the records |
| Domain.ReplaceFirst | Services/IssueService.cs:73-82 | replacement keeps the length and changes only records holding the identifier, into the new record |
| Domain.FirstAt | Models/DataStructures.cs:32-79 | at the first index holding the identifier, removal and replacement touch only that index and a lookup returns that record |
| Domain.RemoveFirstAt | Models/DataStructures.cs:56-79 | removal at the first matching index deletes exactly that index |
| Domain.ReplaceFirstAt | Services/IssueService.cs:73-82 | replacement at the first matching index rewrites exactly that index |
| Domain.RemoveFirstUnique | Models/DataStructures.cs:56-79 | removal keeps identifiers distinct |
| Domain.ReplaceFirstIds | Services/IssueService.cs:73-82 | replacing with a record of the same identifier keeps every identifier and their distinctness |
| Domain.ReplaceFirstUnique | Services/IssueService.cs:73-82 | with distinct identifiers, exactly the record holding the identifier is rewritten |
| Domain.RemoveAbsent | Models/DataStructures.cs:67-78 | removing an absent identifier changes nothing |
| Domain.ReplaceAbsent | Services/IssueService.cs:73-87 | updating an absent identifier changes nothing |
| IssueList.IssueNode.constructor | Models/DataStructures.cs:87-91 | a new node holds the issue and no successor |
| IssueList.IssueLinkedList.constructor | Models/DataStructures.cs:6-11 | a new list is empty and well formed |
| IssueList.IssueLinkedList.NodesDistinct | Models/DataStructures.cs:6-30 | a null-terminated chain never visits a node twice |
| IssueList.IssueLinkedList.Add | Models/DataStructures.cs:13-30 | the contents become the old contents followed by the issue, and the count grows by one |
| IssueList.IssueLinkedList.GetById | Models/DataStructures.cs:32-42 | returns the first issue with the identifier, none when there is none |
| IssueList.IssueLinkedList.Locate | Models/DataStructures.cs:34-41 | the walk stops at the first node holding the identifier, or at the end when none holds it |
| IssueList.IssueLinkedList.UpdateById | Services/IssueService.cs:73-82 | writing into the node found by the lookup replaces the first issue with that identifier and leaves the nodes and count alone |
| IssueList.IssueLinkedList.SetData | Services/IssueService.cs:76-82 | writing a node's data changes exactly that position of the contents |
| IssueList.IssueLinkedList.GetAll | Models/DataStructures.cs:44-54 | returns the issues in list order; the length equals the count |
| IssueList.IssueLinkedList.UnlinkHead | Models/DataStructures.cs:60-65 | moving the head drops the first issue and decrements the count |
| IssueList.IssueLinkedList.UnlinkAfter | Models/DataStructures.cs:70-75 | skipping a successor removes exactly that position and decrements the count |
| IssueList.IssueLinkedList.LocateBefore | Models/DataStructures.cs:67-77 | the walk stops before the first later node holding the identifier, or at the last node |
| IssueList.IssueLinkedList.Remove | Models/DataStructures.cs:56-79 | reports true exactly when the identifier was stored; the contents lose their first issue with it; the count follows |
| HeapOrder.CsDiv | DataStructures/ServiceRequestDataStructures.cs:327 | C#'s integer division, truncating toward zero: for a non-negative dividend the remainder lies in [0, b), for a negative one in (-b, 0] |
| HeapOrder.ParentIndex | DataStructures/ServiceRequestDataStructures.cs:327 | `GetParentIndex`, (index - 1) / 2 in C# arithmetic: for index >= 1 the index is 2p+1 or 2p+2 of the result p, and the root's parent index is 0 |
| HeapOrder.HasParent | DataStructures/ServiceRequestDataStructures.cs:336 | `HasParent`, the parent index being non-negative: true exactly for a non-negative index, so the root counts as having a parent |
| HeapOrder.RootIsOwnParent | DataStructures/ServiceRequestDataStructures.cs:327-336 | with truncating division every index has a parent, the root being its own |
| HeapOrder.ChildSlots | DataStructures/ServiceRequestDataStructures.cs:330-333 | the children of slot k are exactly 2k+1 and 2k+2 |
| HeapOrder.AncestorDominates | DataStructures/ServiceRequestDataStructures.cs:375-382 | in heap order the root's priority is at least every entry's |
| HeapOrder.RootIsMax | DataStructures/ServiceRequestDataStructures.cs:385-392 | the root of a non-empty heap has a maximal priority |
| HeapOrder.OrderByPriorityDescending | Models/DataStructures.cs:176-179 | the result is a permutation of the input in non-increasing priority |
| HeapOrder.SortedByNegPrio | Models/DataStructures.cs:178 | ascending by negated priority is descending by priority |
| HeapOrder.SwapAt | DataStructures/ServiceRequestDataStructures.cs:354-359 | a swap keeps the length and the multiset |
| HeapOrder.SiftUpStep | DataStructures/ServiceRequestDataStructures.cs:377-381 | swapping a strictly higher entry with its parent moves the single heap defect up to the parent |
| HeapOrder.SiftUpDone | DataStructures/ServiceRequestDataStructures.cs:377 | when the entry is not above its parent the heap is whole |
| HeapOrder.SiftDownStep | DataStructures/ServiceRequestDataStructures.cs:417-432 | swapping with the higher child moves the defect down to that child |
| HeapOrder.SiftDownDone | DataStructures/ServiceRequestDataStructures.cs:426-429 | when no child is above the entry the heap is whole |
| HeapOrder.DropRoot | DataStructures/ServiceRequestDataStructures.cs:402-404 | moving the last entry to the root and shrinking removes exactly the old root |
| HeapOrder.RemoveRoot | DataStructures/ServiceRequestDataStructures.cs:402-408 | that removal leaves a heap whose only defect is at the root |
| HeapOrder.NonIncreasingAppend | DataStructures/ServiceRequestDataStructures.cs:442-445 | appending an entry no higher than the last keeps the sequence non-increasing |
| HeapOrder.BoundBySubset | DataStructures/ServiceRequestDataStructures.cs:442-445 | a priority bound on a multiset holds on every sub-multiset |
| RequestHeap.ServiceRequestMinHeap.constructor | DataStructures/ServiceRequestDataStructures.cs:321-325 | the heap starts empty |
| RequestHeap.ServiceRequestMinHeap.Count | DataStructures/ServiceRequestDataStructures.cs:319 | the number of entries |
| RequestHeap.ServiceRequestMinHeap.Swap | DataStructures/ServiceRequestDataStructures.cs:354-359 | exchanges exactly the two entries |
| RequestHeap.ServiceRequestMinHeap.Insert | DataStructures/ServiceRequestDataStructures.cs:368-372 | keeps heap order and adds exactly the issue |
| RequestHeap.ServiceRequestMinHeap.HeapifyUp | DataStructures/ServiceRequestDataStructures.cs:375-382 | from a heap with one defect above the index, restores heap order as a permutation |
| RequestHeap.ServiceRequestMinHeap.Peek | DataStructures/ServiceRequestDataStructures.cs:385-392 | fails with "Heap is empty" exactly when empty, otherwise returns an entry of maximal priority |
| RequestHeap.ServiceRequestMinHeap.ExtractMin | DataStructures/ServiceRequestDataStructures.cs:395-412 | fails and changes nothing on an empty heap; otherwise removes exactly the old root, which has maximal priority, keeping heap order |
| RequestHeap.ServiceRequestMinHeap.HeapifyDown | DataStructures/ServiceRequestDataStructures.cs:415-434 | from a heap with one defect below the index, restores heap order as a permutation |
| RequestHeap.ServiceRequestMinHeap.DrainOne | DataStructures/ServiceRequestDataStructures.cs:442-445 | one round of the drain moves the root to the output, which stays non-increasing and bounds what remains |
| RequestHeap.ServiceRequestMinHeap.GetAllByPriority | DataStructures/ServiceRequestDataStructures.cs:437-449 | returns a permutation of the entries in non-increasing priority and leaves the heap as it was |
| IssueQueue.Refreshed | Services/IssueService.cs:73-82 | every entry with the updated identifier becomes the new issue; the rest and the length stay |
| IssueQueue.RefreshedIds | Services/IssueService.cs:73-82 | an update keeps the identifiers in the queue |
| IssueQueue.RefreshedKeepsHeap | Services/IssueService.cs:80 | an update that keeps the priority keeps heap order |
| IssueQueue.RefreshedMayBreakHeap | Services/IssueService.cs:80 | raising a leaf's priority above its parent's breaks heap order |
| IssueQueue.RootIsMaxIfHeap | Models/DataStructures.cs:127-132 | in heap order the root has a maximal priority |
| IssueQueue.IssuePriorityQueue.constructor | Models/DataStructures.cs:99-102 | the queue starts empty |
| IssueQueue.IssuePriorityQueue.Count | Models/DataStructures.cs:104 | the number of entries |
| IssueQueue.IssuePriorityQueue.Enqueue | Models/DataStructures.cs:106-110 | adds exactly the issue and keeps heap order when it held |
| IssueQueue.IssuePriorityQueue.Dequeue | Models/DataStructures.cs:112-125 | fails with "Queue is empty" exactly when empty; otherwise removes the old root, which in heap order is maximal, and keeps heap order |
| IssueQueue.IssuePriorityQueue.Peek | Models/DataStructures.cs:127-132 | fails exactly when empty; otherwise the root, maximal when in heap order |
| IssueQueue.IssuePriorityQueue.HeapifyUp | Models/DataStructures.cs:134-145 | a permutation that restores heap order from one defect above the index |
| IssueQueue.IssuePriorityQueue.HeapifyDown | Models/DataStructures.cs:147-167 | a permutation that restores heap order from one defect below the index |
| IssueQueue.IssuePriorityQueue.Swap | Models/DataStructures.cs:169-174 | exchanges exactly the two entries |
| IssueQueue.IssuePriorityQueue.GetAll | Models/DataStructures.cs:176-179 | every entry, in non-increasing priority, queue unchanged |
| IssueQueue.IssuePriorityQueue.Refresh | Services/IssueService.cs:76-82 | the queue sees the update through the shared issue object |
| Activity.Capacity | Models/DataStructures.cs:194-207 | the stack never holds more than the bound, or one entry when the bound is below one |
| Activity.Pushed | Models/DataStructures.cs:194-207 | the new entry is on top, the size stays within capacity, and below the bound the old entries stay beneath it unchanged |
| Activity.PushedAtBound | Models/DataStructures.cs:196-206 | at the bound the oldest entry is dropped and the others remain, in reverse order |
| Activity.ReverseMultiset | Models/DataStructures.cs:199 | reversal keeps the entries |
| Activity.PushedExample | Models/DataStructures.cs:194-207 | four pushes with bound three leave "d", "b", "c" from the top |
| Activity.ActivityStack.constructor | Models/DataStructures.cs:188-192 | an empty stack with the given bound |
| Activity.ActivityStack.Count | Models/DataStructures.cs:224 | the number of entries |
| Activity.ActivityStack.Push | Models/DataStructures.cs:194-207 | the entries become `Pushed` of the old ones, within capacity |
| Activity.ActivityStack.Pop | Models/DataStructures.cs:209-212 | none exactly on an empty stack; otherwise the top, which is removed |
| Activity.ActivityStack.Peek | Models/DataStructures.cs:214-217 | none exactly on an empty stack; otherwise the top |
| Activity.ActivityStack.GetRecent | Models/DataStructures.cs:219-222 | the first `count` entries, newest first, none when `count` is not positive |
| Issues.NewestFirst | Services/IssueService.cs:59-62 | a permutation of the stored issues in non-increasing creation time |
| Issues.Numbered | Services/IssueService.cs:124-128 | each sample receives the next identifier in order |
| Issues.NumberedUnique | Services/IssueService.cs:121-275 | seeded identifiers are distinct |
| Issues.Overwritten | Services/IssueService.cs:76-82 | six fields come from the update, the update time is now, identifier and creation time are kept |
| Issues.SeedConsistent | Services/IssueService.cs:269-274 | seeding establishes the service invariant: distinct stored identifiers below the counter, every stored issue queued |
| Issues.CreateConsistent | Services/IssueService.cs:37-52 | creating preserves the invariant |
| Issues.RefreshedHolds | Services/IssueService.cs:73-82 | a queued issue stays queued, as its updated self when its identifier matches |
| Issues.UpdateConsistent | Services/IssueService.cs:69-89 | updating preserves the invariant |
| Issues.DeleteConsistent | Services/IssueService.cs:91-107 | deleting preserves the invariant |
| Issues.IssueService.constructor | Services/IssueService.cs:27-35 | the store holds the numbered samples, the queue a heap of them, and the counter follows them |
| Issues.IssueService.AddSample | Services/IssueService.cs:269-274 | one sample is stored, queued and logged |
| Issues.IssueService.LogActivity | Services/IssueService.cs:114-117 | the log receives the push |
| Issues.IssueService.CreateIssue | Services/IssueService.cs:37-52 | returns the old counter; stores and queues the issue stamped with that identifier, the time and Submitted; logs; keeps heap order |
| Issues.IssueService.GetIssueById | Services/IssueService.cs:54-57 | the first stored issue with the identifier |
| Issues.IssueService.GetAllIssues | Services/IssueService.cs:59-62 | the stored issues, newest first |
| Issues.IssueService.GetIssuesByPriority | Services/IssueService.cs:64-67 | a permutation of the queue in non-increasing priority |
| Issues.IssueService.GetRecentActivities | Services/IssueService.cs:109-112 | the newest `count` log entries in order, all of them when fewer are logged, none for a non-positive `count` |
| Issues.IssueService.UpdateIssue | Services/IssueService.cs:69-89 | true exactly when stored; then the store and the queue hold the overwritten issue and one entry is logged; otherwise nothing changes |
| Issues.IssueService.ApplyUpdate | Services/IssueService.cs:76-84 | the writes of an update to the store, the queue and the log |
| Issues.IssueService.DeleteIssue | Services/IssueService.cs:91-107 | true exactly when stored; the store loses the issue, the queue keeps it, and the log records only a real deletion |
| KeyIndex.SearchNode | DataStructures/ServiceRequestDataStructures.cs:76-95 | `SearchRecursive`: absent at an empty subtree, the node's record on an equal identifier, else the left subtree for a smaller one and the right for a larger; a found record has the searched identifier |
| KeyIndex.InOrder | DataStructures/ServiceRequestDataStructures.cs:106-114 | `InOrderTraversal`: the left subtree's records, the node's, then the right subtree's (its properties are in `InOrderIds`, `InOrderSorted` and `InOrderStored`) |
| KeyIndex.InsertNode | DataStructures/ServiceRequestDataStructures.cs:50-67 | the stored identifiers gain exactly the new one |
| KeyIndex.InsertKeepsOrder | DataStructures/ServiceRequestDataStructures.cs:50-67 | insertion keeps the search-tree ordering |
| KeyIndex.SearchFindsStored | DataStructures/ServiceRequestDataStructures.cs:76-95 | in an ordered tree a search succeeds exactly for stored identifiers and returns a record with that identifier |
| KeyIndex.InsertThenSearch | DataStructures/ServiceRequestDataStructures.cs:50-95 | after an insert, a search finds the new record only if the identifier was absent; otherwise it finds what it found before |
| KeyIndex.InsertDuplicate | DataStructures/ServiceRequestDataStructures.cs:58-66 | a duplicate identifier leaves the tree unchanged |
| KeyIndex.InOrderIds | DataStructures/ServiceRequestDataStructures.cs:106-114 | the traversal lists exactly the stored identifiers |
| KeyIndex.InOrderSorted | DataStructures/ServiceRequestDataStructures.cs:98-114 | the traversal of an ordered tree is strictly ascending |
| KeyIndex.BuildSearch | DataStructures/ServiceRequestDataStructures.cs:43-95 | the tree built from a snapshot finds the first record of each identifier |
| KeyIndex.BuildOrdered | DataStructures/ServiceRequestDataStructures.cs:43-67 | that tree is ordered and stores exactly the snapshot's identifiers |
| KeyIndex.IssueSearchTree.constructor | DataStructures/ServiceRequestDataStructures.cs:36-40 | an empty tree with count 0 |
| KeyIndex.IssueSearchTree.Insert | DataStructures/ServiceRequestDataStructures.cs:43-47 | the identifiers gain the new one, a duplicate changes nothing, and the count always grows by one |
| KeyIndex.IssueSearchTree.Search | DataStructures/ServiceRequestDataStructures.cs:70-73 | found exactly when stored, with that identifier |
| KeyIndex.IssueSearchTree.GetAllSorted | DataStructures/ServiceRequestDataStructures.cs:98-103 | every stored identifier once, ascending, each listed record being the one a search for its identifier finds |
| KeyIndex.InOrderStored | DataStructures/ServiceRequestDataStructures.cs:98-114 | every record the traversal of an ordered tree lists is the one a search for its identifier finds |
| BalancedKeyIndex.Height | DataStructures/ServiceRequestDataStructures.cs:156-159 | `GetHeight`: 0 for an empty subtree, else the height stored in the node |
| BalancedKeyIndex.BalanceFactor | DataStructures/ServiceRequestDataStructures.cs:162-165 | `GetBalance`: 0 for an empty subtree, else the left height minus the right height |
| BalancedKeyIndex.UpdateHeight | DataStructures/ServiceRequestDataStructures.cs:168-174 | `UpdateHeight`: the node with its height reset to one more than the larger child height |
| BalancedKeyIndex.InOrder | DataStructures/ServiceRequestDataStructures.cs:302-310 | `InOrderTraversal`: the left subtree's records, the node's, then the right subtree's |
| BalancedKeyIndex.SearchNode | DataStructures/ServiceRequestDataStructures.cs:273-292 | `SearchRecursive`: the same descent by identifier as the unbalanced index; a found record has the searched identifier |
| BalancedKeyIndex.BalancedHeight | DataStructures/ServiceRequestDataStructures.cs:156-159 | a balanced tree has a non-negative height, positive exactly for a node |
| BalancedKeyIndex.RotateRight | DataStructures/ServiceRequestDataStructures.cs:177-189 | the rotated shape with recomputed heights; the in-order sequence and identifiers are kept |
| BalancedKeyIndex.RotateLeft | DataStructures/ServiceRequestDataStructures.cs:192-204 | the mirror of the above |
| BalancedKeyIndex.Rebalance | DataStructures/ServiceRequestDataStructures.cs:236-264 | the result is balanced with the same identifiers; an already balanced node is untouched; otherwise the height drops by one |
| BalancedKeyIndex.InsertNode | DataStructures/ServiceRequestDataStructures.cs:214-265 | the result is balanced, gains exactly the identifier, and grows in height by at most one |
| BalancedKeyIndex.RotateRightOrdered | DataStructures/ServiceRequestDataStructures.cs:177-189 | a rotation keeps ordering and search results |
| BalancedKeyIndex.RotateLeftOrdered | DataStructures/ServiceRequestDataStructures.cs:192-204 | a rotation keeps ordering and search results |
| BalancedKeyIndex.RebalanceOrdered | DataStructures/ServiceRequestDataStructures.cs:236-264 | rebalancing keeps ordering and search results |
| BalancedKeyIndex.InsertOrdered | DataStructures/ServiceRequestDataStructures.cs:214-265 | insertion keeps ordering; the new record is found only if its identifier was absent |
| BalancedKeyIndex.InsertDuplicate | DataStructures/ServiceRequestDataStructures.cs:229-232 | a duplicate identifier leaves the tree unchanged |
| BalancedKeyIndex.InOrderSorted | DataStructures/ServiceRequestDataStructures.cs:295-310 | the traversal is strictly ascending and lists exactly the stored identifiers |
| BalancedKeyIndex.HeightLogarithmic | DataStructures/ServiceRequestDataStructures.cs:144-311 | a balanced tree of height h has at least 2^(h/2) - 1 nodes, so its height is at most about 2·log2(n+1) (a looser bound than the AVL constant 1.44) |
| BalancedKeyIndex.Build | DataStructures/ServiceRequestDataStructures.cs:207-211 | repeated insertion yields a balanced tree |
| BalancedKeyIndex.BuildSearch | DataStructures/ServiceRequestDataStructures.cs:207-292 | that tree is ordered, holds the snapshot's identifiers, and finds the first record of each |
| BalancedKeyIndex.SearchFindsStored | DataStructures/ServiceRequestDataStructures.cs:273-292 | a search succeeds exactly for stored identifiers |
| BalancedKeyIndex.AvlSearchTree.constructor | DataStructures/ServiceRequestDataStructures.cs:149-153 | an empty tree with count 0 |
| BalancedKeyIndex.AvlSearchTree.Insert | DataStructures/ServiceRequestDataStructures.cs:207-211 | stays balanced and ordered; gains the identifier; a duplicate changes nothing; the count always grows |
| BalancedKeyIndex.AvlSearchTree.Search | DataStructures/ServiceRequestDataStructures.cs:268-271 | found exactly when stored, with that identifier |
| BalancedKeyIndex.AvlSearchTree.GetAllSorted | DataStructures/ServiceRequestDataStructures.cs:295-300 | every stored identifier once, ascending, each listed record being the one a search for its identifier finds |
| BalancedKeyIndex.InOrderStored | DataStructures/ServiceRequestDataStructures.cs:295-310 | every record the traversal of an ordered tree lists is the one a search for its identifier finds |
| UnionFind.Root | DataStructures/ServiceRequestDataStructures.cs:609-616 | the representative is a root reached by climbing parents |
| UnionFind.RedirectKeepsRoots | DataStructures/ServiceRequestDataStructures.cs:613 | re-pointing a non-root keeps the roots |
| UnionFind.LinkRemovesRoot | DataStructures/ServiceRequestDataStructures.cs:625 | linking a root removes exactly that root |
| UnionFind.RootsNonEmpty | DataStructures/ServiceRequestDataStructures.cs:602-606 | a non-empty forest has a root |
| UnionFind.Compress | DataStructures/ServiceRequestDataStructures.cs:611-614 | path compression keeps the forest, the roots and every entry's root |
| UnionFind.CompressStep | DataStructures/ServiceRequestDataStructures.cs:611-615 | one compression step of `Find` keeps classes and roots |
| UnionFind.Link | DataStructures/ServiceRequestDataStructures.cs:623-626 | linking two roots merges exactly their two classes |
| UnionFind.LinkStep | DataStructures/ServiceRequestDataStructures.cs:619-627 | the link after two finds merges the classes and removes one root |
| UnionFind.SameClassesTrans | DataStructures/ServiceRequestDataStructures.cs:621-622 | two class-preserving finds compose |
| UnionFind.Singletons | DataStructures/ServiceRequestDataStructures.cs:602-606 | identity parents form one class per identifier |
| UnionFind.DisjointSets.MakeSets | DataStructures/ServiceRequestDataStructures.cs:602-606 | exactly the identifiers, each its own parent |
| UnionFind.DisjointSets.constructor | DataStructures/ServiceRequestDataStructures.cs:602-606 | one root per identifier |
| UnionFind.DisjointSets.Find | DataStructures/ServiceRequestDataStructures.cs:609-616 | returns the root of the class, keeping classes and roots |
| UnionFind.DisjointSets.Union | DataStructures/ServiceRequestDataStructures.cs:619-627 | merges the two classes, removing one root when they differ |
| RelationshipGraph.AllEdgesMembers | DataStructures/ServiceRequestDataStructures.cs:582-590 | every listed edge is collected and nothing else |
| RelationshipGraph.AllEdgesSourced | DataStructures/ServiceRequestDataStructures.cs:582-590 | every collected edge sits in its source's list |
| RelationshipGraph.Endpoints | DataStructures/ServiceRequestDataStructures.cs:657-663 | at most one request per edge, including the registered target of every edge |
| RelationshipGraph.EndpointsFrom | DataStructures/ServiceRequestDataStructures.cs:657-663 | each result is the registered target of some edge |
| RelationshipGraph.NearestEndpoint | DataStructures/ServiceRequestDataStructures.cs:649-667 | each related request is the target of one of the vertex's edges |
| RelationshipGraph.FrontierPop | DataStructures/ServiceRequestDataStructures.cs:521-523 | dequeuing keeps the queue invariant |
| RelationshipGraph.ReachesStep | DataStructures/ServiceRequestDataStructures.cs:529-539 | following one more edge from a reachable identifier reaches its target |
| RelationshipGraph.ReachesTrans | DataStructures/ServiceRequestDataStructures.cs:563-571 | reachability is transitive |
| RelationshipGraph.WalkInside | DataStructures/ServiceRequestDataStructures.cs:512-543 | a walk that starts inside an edge-closed set of identifiers stays inside it |
| RelationshipGraph.ReachableExact | DataStructures/ServiceRequestDataStructures.cs:512-543 | `Reachable` holds exactly the identifiers some walk from the start leads to |
| RelationshipGraph.ReachableIs | DataStructures/ServiceRequestDataStructures.cs:512-543 | a set of reachable identifiers that holds the start and is closed under edges is the whole reachable set |
| RelationshipGraph.CollectedAdd | DataStructures/ServiceRequestDataStructures.cs:524-527 | taking a newly dequeued request keeps the result duplicate-free and holding the request of every dequeued registered identifier |
| RelationshipGraph.EnqueueUnvisited | DataStructures/ServiceRequestDataStructures.cs:529-539 | every target becomes visited; the queue only grows at the back; each newly visited identifier is queued and is the target of one of the edges |
| RelationshipGraph.KruskalStep | DataStructures/ServiceRequestDataStructures.cs:632-641 | an edge joins only between distinct registered ends, and then exactly one root disappears |
| RelationshipGraph.KruskalLoop | DataStructures/ServiceRequestDataStructures.cs:630-643 | the chosen edges are a selection of the input and number as many as the roots lost |
| RelationshipGraph.Kruskal | DataStructures/ServiceRequestDataStructures.cs:602-645 | a sorted sub-multiset of edges between distinct vertices, at most one fewer than the vertices |
| RelationshipGraph.EnumeratesAdd | DataStructures/ServiceRequestDataStructures.cs:502-505 | adding a key appends it to the enumeration order only when new |
| RelationshipGraph.SourcedAdd | DataStructures/ServiceRequestDataStructures.cs:507 | appending an edge keeps every edge in its source's list |
| RelationshipGraph.EdgeAddedInvariant | DataStructures/ServiceRequestDataStructures.cs:500-508 | adding an edge preserves the graph invariant |
| RelationshipGraph.ServiceRequestGraph.constructor | DataStructures/ServiceRequestDataStructures.cs:483-487 | an empty graph |
| RelationshipGraph.ServiceRequestGraph.AddVertex | DataStructures/ServiceRequestDataStructures.cs:490-497 | a new identifier is registered with an empty list; a known one changes nothing |
| RelationshipGraph.ServiceRequestGraph.GetEdges | DataStructures/ServiceRequestDataStructures.cs:576-579 | the edges leaving the identifier, none when it has no list |
| RelationshipGraph.ServiceRequestGraph.AddEdge | DataStructures/ServiceRequestDataStructures.cs:500-508 | the edge is appended to its source's list, created when missing; nothing else changes |
| RelationshipGraph.ServiceRequestGraph.GetAllEdges | DataStructures/ServiceRequestDataStructures.cs:582-590 | every list in key-insertion order |
| RelationshipGraph.ServiceRequestGraph.BfsVisit | DataStructures/ServiceRequestDataStructures.cs:521-540 | one round keeps the walk invariant (discovered identifiers reachable and dequeued or queued, targets of dequeued ones discovered) and dequeues a new identifier |
| RelationshipGraph.ServiceRequestGraph.BFSTraversal | DataStructures/ServiceRequestDataStructures.cs:512-543 | exactly the registered requests reachable from the start along edges, each once (sound and complete); the start's request comes first |
| RelationshipGraph.ServiceRequestGraph.DFSRecursive | DataStructures/ServiceRequestDataStructures.cs:555-573 | extends the result with distinct registered requests, the current one first, and the visited set with identifiers reachable from the current one whose edge targets are all visited |
| RelationshipGraph.ServiceRequestGraph.DfsEdge | DataStructures/ServiceRequestDataStructures.cs:565-571 | one edge of the loop: its target is visited afterwards, and everything newly visited stays reachable from the current identifier |
| RelationshipGraph.ServiceRequestGraph.DFSTraversal | DataStructures/ServiceRequestDataStructures.cs:546-552 | exactly the registered requests reachable from the start along edges, each once; the start's request comes first |
| RelationshipGraph.ServiceRequestGraph.GetRelatedRequests | DataStructures/ServiceRequestDataStructures.cs:649-667 | the registered targets of the `maxResults` lightest edges, at most `maxResults` of them |
| RelationshipGraph.ServiceRequestGraph.GetMinimumSpanningTree | DataStructures/ServiceRequestDataStructures.cs:594-646 | a weight-sorted sub-multiset of the graph's edges between distinct registered requests, at most one fewer than the requests |
| ServiceRequests.AnySharedMeaning | Services/ServiceRequestService.cs:179 | the scan finds a shared word exactly when one exists |
| ServiceRequests.AreSimilarLocations | Services/ServiceRequestService.cs:174-180 | both locations are lower-cased and split on space, comma and hyphen with empty pieces dropped; similar when the two word lists share a word (its meaning is in the lemmas below) |
| ServiceRequests.SimilarLocationsShareWord | Services/ServiceRequestService.cs:174-180 | locations are similar exactly when a lower-cased token occurs in both |
| ServiceRequests.SimilarLocationsSymmetric | Services/ServiceRequestService.cs:174-180 | similarity is symmetric |
| ServiceRequests.SharedFirstWord | Services/ServiceRequestService.cs:174-180 | locations starting with the same word are similar |
| ServiceRequests.SimilarLocationsExample | Services/ServiceRequestService.cs:174-180 | "Main Road" and "Main Road & Oak" are similar |
| ServiceRequests.RelationshipWeight | Services/ServiceRequestService.cs:114-148 | the weight lies in 1..10 |
| ServiceRequests.WeightUnrelated | Services/ServiceRequestService.cs:114-148 | the weight is 10 exactly when no factor applies |
| ServiceRequests.WeightSymmetric | Services/ServiceRequestService.cs:114-148 | the weight is symmetric |
| ServiceRequests.WeightAllFactors | Services/ServiceRequestService.cs:114-148 | all factors together give the minimum weight 1 |
| ServiceRequests.RelationshipType | Services/ServiceRequestService.cs:151-170 | one of five labels; "Same Area & Category" and "Related" exactly under their conditions |
| ServiceRequests.TypeSymmetric | Services/ServiceRequestService.cs:151-170 | the label is symmetric |
| ServiceRequests.LabelledPairsAreJoined | Services/ServiceRequestService.cs:99-107 | a pair with a label other than "Related" has weight below 10 and is joined |
| ServiceRequests.PairEdgesMember | Services/ServiceRequestService.cs:99-108 | each pair edge joins the two issues with the pair's weight (below 10) and label |
| ServiceRequests.FromMembers | DataStructures/ServiceRequestDataStructures.cs:500-508 | the edges left in a list are exactly those leaving its key |
| ServiceRequests.GraphEdgesComplete | Services/ServiceRequestService.cs:89-111 | every pair with weight below 10 is joined both ways |
| ServiceRequests.GraphEdgesSound | Services/ServiceRequestService.cs:89-111 | every edge joins a pair with weight below 10, carrying its weight and label |
| ServiceRequests.GraphEdgesSymmetric | Services/ServiceRequestService.cs:106-107 | every edge has its reverse with the same weight and label |
| ServiceRequests.ExtendFrom | DataStructures/ServiceRequestDataStructures.cs:500-508 | repeated `AddEdge` appends to each list exactly the edges leaving it |
| ServiceRequests.AddPair | Services/ServiceRequestService.cs:95-108 | one pair's edges are added in order |
| ServiceRequests.AddRow | Services/ServiceRequestService.cs:93-109 | the inner loop adds one row's edges |
| ServiceRequests.BuildGraphRelationships | Services/ServiceRequestService.cs:89-111 | the lists become the old ones extended by all pair edges in loop order; vertices unchanged |
| ServiceRequests.UniqueIdsCount | Services/ServiceRequestService.cs:240 | distinct identifiers number as many as the records |
| ServiceRequests.StatusCountsSum | Services/ServiceRequestService.cs:240-245 | the five status counts add up to the total |
| ServiceRequests.CountStatusSet | Services/ServiceRequestService.cs:241-245 | with distinct identifiers, the count for a status is the number of distinct records with it |
| ServiceRequests.CountPrioritySet | Services/ServiceRequestService.cs:246-247 | with distinct identifiers, the count for a priority is the number of distinct records with it |
| ServiceRequests.CanonicalMembers | Services/ServiceRequestService.cs:236 | a listing with the snapshot's identifiers, each the first record with it, holds exactly the canonical records |
| ServiceRequests.CanonicalListing | Services/ServiceRequestService.cs:236-247 | such a listing with distinct identifiers counts, per status and per priority, the canonical records |
| ServiceRequests.IndexAll | Services/ServiceRequestService.cs:68-74 | the trees and heap hold the snapshot, and the graph has one vertex per identifier and no edges |
| ServiceRequests.ConnectAll | Services/ServiceRequestService.cs:77 | afterwards the graph holds the first record per identifier and exactly the pair edges |
| ServiceRequests.ServiceRequestService.constructor | Services/ServiceRequestService.cs:37-49 | four empty indexes |
| ServiceRequests.ServiceRequestService.Rebuild | Services/ServiceRequestService.cs:53-79 | four new indexes over the snapshot; the graph holds the first record per identifier and exactly the pair edges |
| ServiceRequests.ServiceRequestService.GetRequestById | Services/ServiceRequestService.cs:183-197 | the first snapshot record with the identifier; the AVL fallback never finds more than the BST |
| ServiceRequests.ServiceRequestService.GetAllRequests | Services/ServiceRequestService.cs:201-204 | one record per snapshot identifier, ascending, each the first snapshot record with its identifier |
| ServiceRequests.ServiceRequestService.Statistics | Services/ServiceRequestService.cs:232-255 | the total counts distinct identifiers; each of the five status counts and the Critical and High counts is the number of canonical records (the first per identifier) with that status or priority; the status counts add up to the total; node and heap counts equal the snapshot size, which equals the total when identifiers are distinct |
| Sorting.SortBy | DataStructures/ServiceRequestDataStructures.cs:600 | a permutation sorted by the key |
| Sorting.PickedSortedSubset | DataStructures/ServiceRequestDataStructures.cs:630-643 | a selection from a sorted sequence is a sorted sub-multiset |
| Text.Lower | Services/ServiceRequestService.cs:176-177 | same length, each character case-folded |
| Text.Tokens | Services/ServiceRequestService.cs:176-177 | non-empty words without separators |
| Gamification.CalculateLevel | Models/GamificationService.cs:132-141 | a level in 1..7, 1 exactly below 50 points and 7 exactly from 1000 |
| Gamification.LevelThresholds | Models/GamificationService.cs:132-141 | level k+2 is reached exactly at the k-th threshold |
| Gamification.LevelMonotone | Models/GamificationService.cs:132-141 | more points never lower the level |
| Gamification.TypesOfWitness | Models/GamificationService.cs:70 | every held type belongs to some badge |
| Gamification.TypeOrdinal | Models/UserEngagement.cs:28-37 | the enumeration values 0..6 |
| Gamification.InitializeBadges | Models/GamificationService.cs:143-211 | seven locked badges numbered 1..7, one per type in declaration order |
| Gamification.CatalogueTypes | Models/GamificationService.cs:143-211 | every type occurs exactly once in the catalogue |
| Gamification.ShouldEarn | Models/GamificationService.cs:99-109 | the per-type rule: FirstReport at 1 report, CommunityHelper at 5, ProblemSolver at 10, CivicChampion at 25, PowerUser at 500 points, SafetyAdvocate at 15 reports and 300 points, EnvironmentalGuardian at 20 reports and 400 points |
| Gamification.ShouldEarnMonotone | Models/GamificationService.cs:99-109 | more reports and points never lose eligibility |
| Gamification.Unlock | Models/GamificationService.cs:113-123 | the copy keeps identity and is unlocked at now |
| Gamification.NewBadges | Models/GamificationService.cs:89-130 | only missing, eligible types, unlocked at now |
| Gamification.NewBadgesFromCatalogue | Models/GamificationService.cs:95-125 | each new badge copies a catalogue badge |
| Gamification.NewBadgesComplete | Models/GamificationService.cs:95-125 | every missing eligible catalogue badge is handed out |
| Gamification.NewBadgesDistinct | Models/GamificationService.cs:95-125 | no type is handed out twice |
| Gamification.Award | Models/GamificationService.cs:66-77 | the award loop over the new badges in order: a badge whose type is already held (also by an earlier badge of the same loop) is skipped; otherwise it is appended unlocked at now and "Badge earned: " with its name is pushed onto the bounded log |
| Gamification.AwardDistinct | Models/GamificationService.cs:66-77 | held badges stay, in front, and types stay distinct |
| Gamification.AwardTypes | Models/GamificationService.cs:66-77 | the held types become the old ones plus those handed out |
| Gamification.Progressed | Models/GamificationService.cs:53-64 | points added, level recomputed, time set, and at most one counter moved, chosen by the activity text |
| Gamification.ActivityEntry | Models/GamificationService.cs:79 | the entry is `User `, the user, `: `, the activity and ` (+`, each at its fixed offset, and ends in ` points)` |
| Gamification.NewEngagement | Models/GamificationService.cs:33-43 | a fresh record: 0 points, level 1, no badges, active |
| Gamification.Registered | Models/GamificationService.cs:27-47 | a known user is untouched; an unknown one gets a fresh record numbered count+1 |
| Gamification.RegisteredIdempotent | Models/GamificationService.cs:27-47 | a second lookup changes nothing |
| Gamification.RegisteredRegistry | Models/GamificationService.cs:27-47 | lookups keep the registry invariant |
| Gamification.ReplacedRegistry | Models/GamificationService.cs:49-82 | filing an updated record keeps the registry invariant |
| Gamification.GamificationService.constructor | Models/GamificationService.cs:20-25 | no users, the catalogue, an empty log bounded at 100 |
| Gamification.GamificationService.GetUserEngagement | Models/GamificationService.cs:27-47 | the registry after the lookup and the user's record |
| Gamification.GamificationService.CheckForNewBadges | Models/GamificationService.cs:89-130 | the badges `NewBadges` describes |
| Gamification.GamificationService.AwardBadges | Models/GamificationService.cs:66-77 | the badges and log that `Award` describes |
| Gamification.GamificationService.UpdateUserEngagement | Models/GamificationService.cs:49-82 | the progressed record with the awarded badges is filed and returned, and the activity is logged last |
| Gamification.UpdateEarnsEligible | Models/GamificationService.cs:49-82 | afterwards the user holds every type whose rule the progressed record meets, and the old badges in front |
| Points.CategoryBonus | Controllers/HomeController.cs:173-179 | 15 exactly for public safety, 10 exactly for water and electricity, otherwise 5 |
| Points.CalculatePointsForIssue | Controllers/HomeController.cs:169-182 | 30..55 points in steps of 5 |
| Points.PointsIncreaseWithPriority | Controllers/HomeController.cs:169-182 | within a category, higher priority earns strictly more |
| Points.PointsDeterminePriority | Controllers/HomeController.cs:169-182 | points and category determine the priority |
| Points.PointsExtremes | Controllers/HomeController.cs:169-182 | the extremes are 30 and 55 |
| Points.ReportIssueProgress | Controllers/HomeController.cs:63-69 | reporting credits the points and counts one more report and no resolution |
| Events.Filtered | Services/EventService.cs:102-125 | the active stored events, narrowed by a non-blank term matched case-insensitively in the name, description or location, then by the category if given, then by the start or end day if a date is given; stored order is kept |
| Events.FilteredMultiset | Services/EventService.cs:102-125 | the filters keep every copy of a hit and nothing else |
| Events.EventDays | Services/EventService.cs:205-223 | the set of start days of active events together with the end days of those that have one |
| Events.EventDaysSound | Services/EventService.cs:205-223 | every listed day is a start or end day of an active event |
| Events.EventDaysComplete | Services/EventService.cs:212-219 | every active event's start and end days are listed |
| Events.FirstPerId | Services/EventService.cs:172-174 | a sub-multiset of the candidates |
| Events.FirstPerIdDistinct | Services/EventService.cs:172-174 | identifiers become distinct, and none is lost |
| Events.Upcoming | Services/EventService.cs:163-166 | at most two active upcoming events of the category |
| Events.Candidates | Services/EventService.cs:161-169 | at most two per top category, all active, upcoming and of a top category |
| Events.CountCategoryMultiset | Services/EventService.cs:172-176 | category counts respect sub-multisets |
| Events.CandidatesPerCategory | Services/EventService.cs:161-169 | with distinct top categories, at most two candidates per category |
| Events.Recommended | Services/EventService.cs:151-178 | for each given top category in turn, its two earliest-starting active events that start no earlier than now; then the first of each identifier, at most six |
| Events.RecommendedProperties | Services/EventService.cs:151-178 | at most six active upcoming events of the top categories with distinct identifiers |
| Events.CandidatesFrom | Services/EventService.cs:161-169 | every candidate is among the upcoming events of its own category |
| Events.RecommendedPerCategory | Services/EventService.cs:151-178 | at most two recommendations per category, for any list of top categories |
| Events.Recorded | Services/EventService.cs:132-148 | the term unless blank, the category and the date when given, and nothing else |
| Events.Numbered | Services/EventService.cs:235-480 | samples numbered from the counter as the list is built, kept active |
| Events.EventService.constructor | Services/EventService.cs:483-487 | the loop stores the numbered samples one at a time, registering each category (the category set is that of the stored events); the counter ends after them; no searches |
| Events.EventService.SearchEvents | Services/EventService.cs:98-129 | ordered by start date; every hit as often as stored and nothing else |
| Events.EventService.GetEventDates | Services/EventService.cs:205-223 | exactly the days of active events |
| Events.EventService.GetRecommendedEvents | Services/EventService.cs:151-178 | the recommendations described by `Recommended` |
| Events.EventService.TrackSearch | Services/EventService.cs:132-148 | the tracker gains exactly `Recorded`; nothing else changes |
| Events.EventService.CreateEvent | Services/EventService.cs:61-74 | the next identifier is returned, the event is stored stamped and active, and its category is registered |

## Left out

- **Asynchronous execution.** `Task.Run`, `async`/`await` and the fire-and-forget rebuild in
  the `ServiceRequestService` constructor are not modelled. Each operation runs as one atomic
  step. The constructor starts with empty indexes, and `Rebuild` is called with the snapshot
  that `GetAllIssuesAsync` returns.
- **The clock.** `DateTime.Now` is a parameter `now` in whole seconds. `DateTime.Date` is
  floor division by 86400. Durations (`TotalDays`) are compared in seconds.
- **Timestamp formatting.** The activity-log prefix is dropped: `Activity.ActivityStack.Push`
  stores the entry text without the timestamp the source prepends. Message texts are kept.
- **Case folding.** The model folds ASCII letters only. `ToLower` and `OrdinalIgnoreCase`
  fold Unicode; `char.IsWhiteSpace` is restricted to ASCII white space the same way.
- **Tree nodes.** `BSTNode` and `AVLNode` are datatype values. The in-place writes to the
  child links of exclusively owned nodes become rebuilt values. No aliasing of nodes is
  modelled.
- **Shared objects.**
  - Issues, events, badges and engagement records are values.
  - The issue shared between the linked list and the priority queue is modelled explicitly
    (`IssueQueue.IssuePriorityQueue.Refresh`).
  - Other aliasing is not modelled: the snapshot held by `ServiceRequestService`, the
    engagement record returned to the controller, the event objects passed in, and the
    `Issue` passed to `CreateIssueAsync`, which the source stamps and stores itself (the
    caller keeps a reference to the stored record; the model stores a stamped copy).
- **Collaborators that are not part of this model.**
  - `EventSortedDictionary` is a sequence of events in insertion order.
  - `SearchPatternTracker` is a log of recorded searches.
  - `GetTopCategories(3)` is a parameter `top` of `GetRecommendedEvents`.
  - `CategoryManager` is a set.
  - `RecentlyViewedStack` is not modelled.
- **Event operations not modelled.** These depend only on those collaborators:
  - `RecordEventViewAsync` and `GetRecentlyViewedAsync`;
  - `GetEventByIdAsync` and `GetAllEventsAsync`;
  - `GetActiveCategoriesAsync`.
- **Plain delegation.** These only forward to modelled operations:
  - `GetAvailableBadgesAsync` returns a copy of the catalogue;
  - `GetRequestsByPriorityAsync`, `GetRelatedRequestsAsync` (with `maxResults` 5),
    `GetRequestRelationshipsAsync` and `GetMinimumSpanningTreeAsync` of
    `ServiceRequestService`.
- **Unused state.** The `visited` set of `GetRelatedRequests` is never read, so it is not
  modelled.
- **Sample data.** The sample records are constructor parameters:
  - ten issues in `Services/IssueService.cs`;
  - two issues in `Models/IssueService.cs`;
  - fifteen events.

  Their numbering from 1 and the loops that store them are modelled; their field values are
  not.
- **Identifier counters.** The static `nextId` counters are instance fields. Sharing between
  instances is not modelled; the application registers each service once.
- **The two `IssueService` copies.** `Models/IssueService.cs` and `Services/IssueService.cs`
  have the same operations. They are modelled once, in `Issues.IssueService`.
- **Equal sort keys.** LINQ `OrderBy` and `OrderByDescending` are stable sorts, modelled by
  the stable `Sorting.SortBy`. `List.Sort` in `GetMinimumSpanningTree` is unstable. The model
  uses the stable sort there as well, so the order of equal-weight edges (and so which of them
  join the tree) may differ from the source's.
- **Unset priority.** `Issue.Priority` carries no `[Required]`, so a form that leaves it
  unbound yields `default(IssuePriority)`, the value 0. The four-constructor `Priority`
  datatype excludes that value, so the model does not cover its 25..35 points or its heap key 0.
- **Rounding.** Relationship weights are integers 1..10 instead of `double`. Every step of
  the source is a whole number, so no rounding occurs.
- RelationshipGraph.ServiceRequestGraph.GetMinimumSpanningTree: minimality is not proved.
  Neither is the forest property beyond the bound of one fewer edge than vertices. The
  contract states a sorted sub-multiset of the edges between distinct registered requests.
- Gamification.Progressed: points are unbounded integers. The 32-bit overflow of
  `engagement.Points += pointsEarned` is not modelled.
- IssueQueue.IssuePriorityQueue.Dequeue: heap order is promised only when it held before.
  An update can raise a priority in place and break it (`IssueQueue.RefreshedMayBreakHeap`).
  The same holds for `Enqueue`, `Peek`, `HeapifyUp` and `HeapifyDown`.
