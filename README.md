# Verified model of the containers and graph algorithms of a C teaching repository

The repository is a set of self-contained C programs. Each one re-implements
the same generic containers (a singly linked list, a stack, a ring-buffer
queue, chained hashtables, an adjacency-list graph) and builds one small
algorithm on top of them. This project models six of those programs in Dafny
and proves what they compute:

- `Hashtable/pb2.c`: a hashtable used as a multimap. `ht_put` always appends
  to the tail of the key's bucket, and a lookup returns the first match.
  Its list is the prev/curr-walk variant.
- `Hashtable/party_live.c`: a hashtable used as a map. `ht_put` replaces an
  existing key's value or inserts at the bucket head. `check_conflicts` sits
  on top of it and reports the first preference that contradicts an earlier
  one.
- `Graph/comp_conex.c`: the `get_nth_node` list, a stack, a ring-buffer
  queue and an adjacency-list graph. On top of them, a recursive DFS emits
  every connected component as a block followed by a `-1` marker. The
  output is proved equal to a reference depth-first search, vertex by
  vertex in the order the C code emits them, and each block is proved to
  be a post-order search tree rooted at its last vertex.
- `Graph/top_sort_kahn.c`: the same list, queue and graph, plus `top_sort`.
  The in-degree table is proved exact. The queue phase is modelled as
  written:
  - the decrement after each dequeue is unconditional;
  - the queue holds five vertices.
- `Trie/trie.c`: a 26-way character trie with insert, search and a pruning
  remove. It keeps `nNodes` and per-node `n_children` counters.
- `Graph/FloydWarshall.c`: an adjacency-matrix graph and Floyd–Warshall over
  it, with the sentinel `INF = 999`. Each distance the program prints is
  proved to be the length of a shortest walk with one or more edges.

How the model is built:

- **Linked lists** are classes over real `Node` objects. Each list carries a
  ghost chain and a ghost `Contents` sequence, and both positional
  operations are proved against the value functions `InsertAt` and
  `RemoveAt`, which clamp the index as the C code does.
- **Queue, stack, graphs and hashtables** are classes whose fields are
  updated in place.
- **Hashtable buckets and adjacency lists** are sequences held in an
  `array`.
- **Trie nodes** are datatype values, and the trie's counters live in a
  class.
- **Compare and hash callbacks** are function parameters. The sanity
  assumptions a property needs are stated as `IsEquality(cmp)`.
- **NULL handles and NULL keys/values** are modelled for the lists and
  hashtables, where the source tests for them: nullable references, and
  `Option` for `void*` arguments. The stack, queue and graph handles are
  never NULL in the model (see "## Left out").

## Model

| member | source | states |
|---|---|---|
| ListSpec.InsertAt | Hashtable/pb2.c:52-87 | the list after a clamped insert: one longer, `x` at position min(n, size), the other elements in order around it; position 0 prepends and an index past the end appends |
| ListSpec.RemoveAt | Hashtable/pb2.c:97-128 | the list without position k: one shorter, the elements before k unchanged and the ones after shifted down, the multiset losing exactly the removed element |
| ListSpec.ClampedRemoveInsert | Hashtable/pb2.c:52-128 | a clamped remove at the same index undoes a clamped insert, for every index including one past the end |
| ListSpec.RemoveFirst | Graph/comp_conex.c:612-628 | removing the first occurrence: nothing changes when `x` is absent, otherwise the list is one shorter and the multiset loses one `x` |
| LinkedLists.LinkedList.constructor | Hashtable/pb2.c:32-43 | ll_create: an empty list over a fresh footprint |
| LinkedLists.LinkedList.Splice | Hashtable/pb2.c:74-86 | linking a new node between `prev` and `curr` inserts its value at position k and keeps the chain well formed |
| LinkedLists.LinkedList.Unlink | Hashtable/pb2.c:117-125 | unlinking `curr` removes position k from the contents and the node from the footprint, and leaves the node's own fields as they were |
| WalkList.Seek | Hashtable/pb2.c:66-72 | walking n steps from the head leaves `curr` on node n (NULL past the tail) and `prev` on node n-1 (NULL at the head) |
| WalkList.AddNth | Hashtable/pb2.c:52-87 | ll_add_nth_node: a NULL list is left alone; otherwise the contents become InsertAt(old, n, x) (same code at Hashtable/party_live.c:36-70) |
| WalkList.RemoveNth | Hashtable/pb2.c:97-128 | ll_remove_nth_node: NULL exactly for a NULL or empty list, which stays unchanged; otherwise the node at min(n, size-1) is returned with its value and the contents become RemoveAt(old, that index) |
| WalkList.GetSize | Hashtable/pb2.c:134-141 | ll_get_size: the number of elements, or (unsigned int)-1 for a NULL list |
| WalkList.Free | Hashtable/pb2.c:149-167 | ll_free: the list is emptied node by node from the head and the handle comes back NULL |
| NthList.GetNthNode | Graph/comp_conex.c:243-256 | get_nth_node: on a non-empty list, the node and value at min(n, size-1) |
| NthList.AddNth | Graph/comp_conex.c:272-292 | ll_add_nth_node through get_nth_node: a NULL list is untouched; otherwise the contents become InsertAt(old, n, x) (same code at Graph/top_sort_kahn.c:81-101) |
| NthList.RemoveNth | Graph/comp_conex.c:294-316 | ll_remove_nth_node: NULL exactly for a NULL or empty list; otherwise node n < size is detached, its link cleared, and the contents lose position n |
| NthList.GetSize | Graph/comp_conex.c:317-322 | ll_get_size: the number of elements, 0 for a NULL list |
| NthList.Free | Graph/comp_conex.c:324-340 | ll_free: the list is emptied and the handle comes back NULL |
| Stacks.Stack.constructor | Graph/comp_conex.c:362-371 | st_create: an empty stack over a fresh list |
| Stacks.Stack.GetSize | Graph/comp_conex.c:372-379 | st_get_size: the number of elements, 0 once the list is gone |
| Stacks.Stack.IsEmpty | Graph/comp_conex.c:380-385 | st_is_empty: true exactly when there is nothing to pop |
| Stacks.Stack.Peek | Graph/comp_conex.c:387-394 | st_peek: NULL exactly for an empty stack, otherwise the top element |
| Stacks.Stack.Push | Graph/comp_conex.c:409-416 | st_push: `x` becomes the new top in front of the old contents; after `st_clear` nothing happens |
| Stacks.Stack.Pop | Graph/comp_conex.c:396-407 | st_pop: the contents lose their top element |
| Stacks.Stack.Clear | Graph/comp_conex.c:418-425 | st_clear: the list is freed, the handle set to NULL, and the stack reads as empty |
| RingQueues.Wrap | Graph/comp_conex.c:473-502 | advancing an index by at most one lap is the index modulo `max_size` |
| RingQueues.Queue.constructor | Graph/comp_conex.c:437-450 | q_create: an empty queue with room for `max_size` elements, both indices 0 |
| RingQueues.Queue.GetSize | Graph/comp_conex.c:451-456 | q_get_size: the number of queued elements |
| RingQueues.Queue.IsEmpty | Graph/comp_conex.c:457-462 | q_is_empty: true exactly when nothing is queued |
| RingQueues.Queue.Front | Graph/comp_conex.c:464-471 | q_front: NULL exactly for an empty queue, otherwise the oldest element |
| RingQueues.Queue.Dequeue | Graph/comp_conex.c:473-484 | q_dequeue: refused (0) exactly on an empty queue, which is left unchanged; otherwise the oldest element leaves and `read_idx` advances modulo `max_size` |
| RingQueues.Queue.Enqueue | Graph/comp_conex.c:486-502 | q_enqueue: refused (0) exactly on a full queue, which is left unchanged (no overwrite); otherwise `x` joins at the back in slot `write_idx`, which advances modulo `max_size`, and no other slot changes |
| RingQueues.Queue.Clear | Graph/comp_conex.c:504-517 | q_clear: the queue becomes empty; an already empty queue keeps its indices, otherwise both indices go back to 0 |
| ListGraphs.FindNode | Graph/comp_conex.c:568-583 | find_node: none exactly when the vertex is absent, otherwise the position of its first occurrence |
| ListGraphs.ListGraph.constructor | Graph/comp_conex.c:536-553 | lg_create: `nodes` vertices, each with an empty list |
| ListGraphs.ListGraph.AddEdge | Graph/comp_conex.c:555-566 | lg_add_edge: with both vertices in range, `dest` is appended to `src`'s list; otherwise nothing changes; no other list changes |
| ListGraphs.ListGraph.HasEdge | Graph/comp_conex.c:585-598 | lg_has_edge: true exactly when both vertices are in range (`InGraph`, is_node_in_graph of Graph/comp_conex.c:531-534) and `dest` is in `src`'s list |
| ListGraphs.ListGraph.GetNeighbours | Graph/comp_conex.c:600-610 | lg_get_neighbours: NULL exactly for an out-of-range vertex, otherwise its list, whose entries are all vertices |
| ListGraphs.ListGraph.RemoveEdge | Graph/comp_conex.c:612-628 | lg_remove_edge: with both vertices in range, the first occurrence of `dest` leaves `src`'s list; otherwise nothing changes; no other list changes |
| Components.DfsHelper | Graph/comp_conex.c:156-167 | DFS_helper: marks `node`, searches from each unvisited neighbour in list order, then appends `node`; the vertices appended are exactly the block of the reference search `Dfs` from `node`, in its order, and the vertices marked afterwards are the ones `Dfs` has visited |
| Components.VisitAll | Graph/comp_conex.c:159-165 | the loop over a marked vertex's neighbours appends exactly what the reference loop `DfsList` emits from position 0, and leaves marked exactly the vertices it has visited |
| Components.Visit | Graph/comp_conex.c:161-165 | one neighbour of the loop: a marked one appends nothing, an unmarked one appends the block of a search from it; in both cases the output so far and the rest of the reference loop from the next position make up the reference loop from this one |
| Components.SearchAll | Graph/comp_conex.c:194-205 | the outer loop over the vertices in ascending order: the list is the blocks of the reference outer loop `Searches` from vertex 0, each followed by -1, and `cc` is their number |
| Components.Search | Graph/comp_conex.c:195-203 | one unvisited start vertex: its search appends the reference block `Dfs` from it and a -1, marks what `Dfs` visits, and the reference outer loop from the next vertex then completes the same run |
| Components.ConnectedComponents | Graph/comp_conex.c:183-208 | print_connected_components: the list is the reference run `Searches` from vertex 0 with a -1 after each block, the count is the number of blocks, and the blocks partition the vertices, each a post-order tree rooted at its last vertex, with ascending roots and no edge into a later block |
| ComponentSpec.Dfs | Graph/comp_conex.c:156-167 | the reference search from an unvisited `v`: afterwards `v` and everything visited before are visited, only vertices are newly visited, and the block ends with `v` |
| ComponentSpec.DfsList | Graph/comp_conex.c:159-165 | the reference loop over `v`'s list: it only adds visited vertices, and only vertices of the graph |
| ComponentSpec.Searches | Graph/comp_conex.c:194-205 | the reference outer loop from vertex `i`: at most one block per remaining vertex |
| ComponentSpec.DfsBlock | Graph/comp_conex.c:156-167 | the reference search emits exactly the vertices it newly visits, once each, in post-order with `v` last, each but `v` a neighbour of a vertex emitted after it, and leaves no neighbour of them unvisited |
| ComponentSpec.DfsListPartial | Graph/comp_conex.c:159-165 | the reference loop over `v`'s list extends a partial post-order block of `v` and leaves every neighbour of `v` visited |
| ComponentSpec.SearchesComponents | Graph/comp_conex.c:194-205 | from any vertex on, the blocks of the reference outer loop complete the components already found into components of the whole graph |
| ComponentSpec.FirstSearch | Graph/comp_conex.c:195-203 | the block of a search from an unvisited vertex is the next component, and the visited set is then the union of all blocks |
| ComponentSpec.SearchesStep | Graph/comp_conex.c:195-203 | the reference outer loop at an unvisited vertex is its search followed by the loop from the next vertex |
| ComponentSpec.SearchesAreComponents | Graph/comp_conex.c:183-208 | the whole reference run partitions the vertices into post-order trees rooted at their last vertex, with ascending roots and no edge into a later block |
| ComponentSpec.DfsExample | Graph/comp_conex.c:156-205 | on the graph 0 -> 1, 0 -> 2, 1 -> 2 the output is exactly 2 1 0 -1: the edge 0 -> 2 finds 2 already visited from 1 |
| ComponentSpec.EachVertexOnce | Graph/comp_conex.c:183-208 | once every vertex is handled, each vertex appears in the output exactly once, nothing else but the markers does, and there is one -1 per block |
| ComponentSpec.RootsAscending | Graph/comp_conex.c:194-203 | the searches start from strictly ascending vertices |
| ComponentSpec.SymmetricClosed | Graph/comp_conex.c:183-208 | on a graph whose every edge has its reverse, no edge leaves a block, so each block is a whole connected component |
| ComponentSpec.JoinCount | Graph/comp_conex.c:195-203 | every vertex of a block appears once in the output list |
| ComponentSpec.MarkerCount | Graph/comp_conex.c:200-202 | the output holds exactly one -1 marker per block |
| Kahn.InDegreeBound | Graph/top_sort_kahn.c:353-360 | no in-degree exceeds the number of vertices |
| Kahn.InDegrees | Graph/top_sort_kahn.c:353-360 | `in_degree[i]` is the number of vertices j with an edge j -> i |
| Kahn.CountSources | Graph/top_sort_kahn.c:358-359 | the inner counting loop: counter i becomes the number of vertices with an edge to i, and no other counter changes |
| TopSorts.EnqueueSources | Graph/top_sort_kahn.c:362-368 | only vertices with in-degree 0 are queued, each at most once, and never more of them than the zero in-degrees seen |
| TopSorts.Release | Graph/top_sort_kahn.c:378-383 | after a dequeue every counter drops by exactly one, whatever the edge test says; a vertex offered when it reaches 0 was not listed or queued before |
| TopSorts.ReleaseOne | Graph/top_sort_kahn.c:379-382 | one step of the inner loop: only counter i drops by one, an offer made when it reaches 0 adds a vertex not listed or queued before, and the queued-or-pending count does not grow |
| TopSorts.MoveFront | Graph/top_sort_kahn.c:374-376 | the front vertex leaves the queue and is appended to the output list, so list and queue together hold the same vertices in the same order |
| TopSorts.DequeueNext | Graph/top_sort_kahn.c:372-383 | one round of the while loop: the front vertex is appended to the output and the number of queued-or-pending vertices strictly falls |
| TopSorts.TopSort | Graph/top_sort_kahn.c:352-395 | top_sort: NULL exactly when the number of dequeued vertices differs from `nodes`; otherwise the list is the dequeue order; that order never repeats a vertex, holds only vertices and is never longer than `nodes` |
| Comparators.CompareInts | Hashtable/pb2.c:236-248 | compare_function_ints: -1, 0 or 1, zero exactly for equal keys and negative exactly for a smaller first key |
| Comparators.CompareIntsIsEquality | Hashtable/pb2.c:236-248 | the int comparison returns 0 exactly for equal keys |
| Comparators.CompareStrings | Hashtable/party_live.c:150-157 | strcmp's sign: -1, 0 or 1, zero exactly for equal strings |
| Comparators.CompareStringsAntisymmetric | Hashtable/party_live.c:150-157 | swapping the strings flips the sign of the comparison |
| Hashes.HashInt | Hashtable/pb2.c:261-272 | hash_function_int: the three xor-shift-multiply rounds on 32 bits give an unsigned int |
| Hashes.HashString | Hashtable/party_live.c:158-170 | hash_function_string: the djb2 loop (start 5381, `hash * 33 + c` on 64 bits) returns the truncation to 32 bits of Djb2 of the string (same code at Hashtable/pb2.c:274-287) |
| Buckets.FindFirstMatching | Hashtable/pb2.c:362-395 | a lookup from the head returns the first of all matching values, or nothing when no entry matches |
| Buckets.MatchingAppend | Hashtable/pb2.c:414-433 | an entry appended at the tail adds its value last among the matches of its key |
| Buckets.FindHead | Hashtable/party_live.c:235-274 | an entry inserted at the head is the one a lookup for its key meets first |
| MultiMaps.HashTable.constructor | Hashtable/pb2.c:306-327 | ht_create: `hmax` empty buckets and size 0, keeping the given callbacks |
| Buckets.Slot | Hashtable/pb2.c:329-335 | ht_get_bucket_index, and the bucket computation of Hashtable/party_live.c:202: always a valid bucket, the hash itself when that is already below `hmax` |
| MultiMaps.HashTable.HasKey | Hashtable/pb2.c:343-360 | ht_has_key: true exactly when the key's bucket holds an entry that compares equal |
| MultiMaps.HashTable.GetEntryNode | Hashtable/pb2.c:362-381 | ht_get_entry_node: the first matching entry's position, or none; the caller's `node_order` comes back as it went in, since `*node_order++` moves the pointer |
| MultiMaps.HashTable.Get | Hashtable/pb2.c:383-395 | ht_get: the oldest value stored under the key, or NULL |
| MultiMaps.HashTable.Put | Hashtable/pb2.c:414-433 | ht_put: one more entry, at the tail of the key's bucket, even for a key already present; no other bucket changes; under an exact comparison, the values under the key gain `value` last and other keys' values stay |
| MultiMaps.HashTable.MatchingValues | Hashtable/pb2.c:505-521 | print_all_key_matching_entries without the printing: the values of every matching entry, in bucket order |
| MultiMaps.HashTable.GetSize | Hashtable/pb2.c:467-473 | ht_get_size: the number of entries over all buckets |
| MultiMaps.HashTable.GetHmax | Hashtable/pb2.c:475-481 | ht_get_hmax: the number of buckets |
| HashMaps.Create | Hashtable/party_live.c:173-193 | ht_create: NULL exactly when a callback is missing; otherwise `hmax` empty buckets, size 0 and the callbacks given |
| HashMaps.HasKey | Hashtable/party_live.c:195-213 | ht_has_key: -1 for a NULL table or key; otherwise 1 exactly when the key is stored and 0 exactly when it is not |
| HashMaps.Get | Hashtable/party_live.c:215-233 | ht_get: NULL for a NULL table or key, otherwise the value of the first matching entry of the key's bucket, or NULL |
| HashMaps.SeekFirstMatch | Hashtable/party_live.c:245-258 | the walk over the bucket of a present key stops at its first match |
| HashMaps.Put | Hashtable/party_live.c:235-274 | ht_put: NULL arguments change nothing. A present key has the value of its first match replaced and the size kept. An absent key gets a new entry at the head of its bucket and the size grows by one. Other buckets stay, the key then maps to `value`, and under an exact comparison other keys keep their values and keys stay unique |
| HashMaps.PutEntry | Hashtable/party_live.c:243-271 | ht_put past its NULL checks: a present key has its first match's value replaced and the size kept, an absent key gets a new head entry and the size grows by one; other buckets stay; the key then maps to `value` when it was present or compares equal to itself; under an exact comparison other keys keep their values and keys stay unique |
| HashMaps.ReplaceValue | Hashtable/party_live.c:245-256 | the overwrite branch: only the value of entry `p` of the key's bucket changes, the key then maps to the new value, other keys keep theirs and keys stay unique |
| HashMaps.InsertHead | Hashtable/party_live.c:261-270 | the insert branch: the new entry heads the key's bucket, no other bucket changes, every entry stays in the bucket of its hash, and under an exact comparison other keys keep their values and keys stay unique |
| HashMaps.RemoveEntry | Hashtable/party_live.c:276-305 | ht_remove_entry: a NULL key or an absent key changes nothing; otherwise the first matching entry leaves its bucket and the size falls by one; other buckets stay, other keys keep their values, and with unique keys the key is then absent |
| HashMaps.RemovePresent | Hashtable/party_live.c:283-299 | ht_remove_entry for a key that is present: the first matching entry leaves its bucket, the size falls by one, other buckets stay, other keys keep their values under an exact comparison, and with unique keys the key is then absent |
| HashMaps.RemoveAtBucket | Hashtable/party_live.c:289-296 | the unlinking step: entry `p` leaves bucket `i` and nothing else changes; entries stay in the buckets of their hashes, other keys keep their values and unique keys stay unique |
| HashMaps.GetSize | Hashtable/party_live.c:330-338 | ht_get_size: 0 for NULL, otherwise the number of entries |
| HashMaps.GetHmax | Hashtable/party_live.c:339-347 | ht_get_hmax: 0 for NULL, otherwise the (positive) number of buckets |
| Party.FirstSign | Hashtable/party_live.c:367-383 | the sign the table holds for an ingredient after a prefix of the preferences: none exactly when no earlier preference names it, otherwise the sign of one that does |
| Party.CheckConflicts | Hashtable/party_live.c:355-390 | check_conflicts: "Happy" exactly when every two preferences about the same ingredient agree in sign; otherwise "Unhappy" with the ingredient of the first preference that contradicts an earlier one |
| Party.Consider | Hashtable/party_live.c:371-383 | one round of check_conflicts: the lookup answers the sign of the first earlier preference for the ingredient, and when there is none or it agrees the table afterwards answers for the preferences up to and including this one |
| Party.FirstClash | Hashtable/party_live.c:372-380 | a preference whose sign differs from the stored one is the first clash, and the preferences are then not consistent |
| Party.ConsistentExtend | Hashtable/party_live.c:381-384 | a preference that agrees with the stored sign, or names a new ingredient, keeps the prefix consistent |
| Tries.Index | Trie/trie.c:106-107 | `*key - 'a'` is a child slot below 26 |
| Tries.NodeSearch | Trie/trie.c:121-135 | trie_search_recursion: a key it finds is one of the keys the subtree counts, so a subtree counting no key finds nothing |
| Tries.NewNode | Trie/trie.c:52-63 | trie_create_node: a well-formed node that is no key's end, has no children, counts one node and no key, and finds nothing |
| Tries.NodeInsert | Trie/trie.c:94-115 | trie_insert_recursion: afterwards the key maps to `value`. The nodes created, at most one per character, are counted in `created`, and none are created for a key already present. The key count grows by one exactly when the key was absent |
| Tries.InsertPruned | Trie/trie.c:94-115 | insertion keeps every non-root node a key's end or a key's ancestor |
| Tries.InsertOther | Trie/trie.c:94-115 | inserting one key leaves every other key's search result unchanged |
| Tries.NodeRemove | Trie/trie.c:141-167 | trie_remove_recursion: `found` exactly when the key was present; an absent key leaves the node unchanged with no pruning; a pruned node holds no key; an unpruned live node stays live |
| Tries.RemoveCounts | Trie/trie.c:141-167 | the nodes freed are exactly the nodes that disappear, and the key count falls by one exactly when the key was found |
| Tries.RemoveThenSearch | Trie/trie.c:141-167 | after removal the key is not found |
| Tries.RemovePruned | Trie/trie.c:141-167 | removal frees every node left with no key below it, so no dead node remains |
| Tries.RemoveOther | Trie/trie.c:141-167 | removing one key leaves every other key's search result unchanged |
| Tries.InitialRoot | Trie/trie.c:65-92 | the root trie_create builds: a key's end holding the marker -1, with no children, so "" maps to -1 and every other key to nothing |
| Tries.Trie.constructor | Trie/trie.c:65-92 | trie_create: size 1 and nNodes 1, `size` equal to the number of keys, "" found with -1 and every other key absent |
| Tries.Trie.Search | Trie/trie.c:137-139 | trie_search: a key found is counted among the root's keys, and a trie whose `size` counts its keys and is 0 finds nothing |
| Tries.Trie.Insert | Trie/trie.c:117-119 | trie_insert as written: the key then maps to `value`, other keys are unaffected, nNodes grows by the nodes created (none for a present key), and `size` does not change |
| Tries.Trie.InsertCounting | Trie/trie.c:34-35 | trie_insert with `size` kept as the number of keys: as Insert, and `size` grows by one exactly for a new key, so `size` keeps counting the keys |
| Tries.Trie.Remove | Trie/trie.c:169-172 | trie_remove: an absent key changes nothing; otherwise `size` falls by one. nNodes falls by the nodes freed and never below 1. The key is then absent, other keys are unaffected, and `size` keeps counting keys if it did |
| Tries.SizeAfterFirstInsert | Trie/trie.c:117-119 | trie_create then trie_insert of "a": two keys are stored while `size` is still 1 |
| MatrixGraphs.MatrixGraph.constructor | Graph/FloydWarshall.c:35-51 | mg_create: an n-by-n matrix of zeros |
| MatrixGraphs.MatrixGraph.AddEdge | Graph/FloydWarshall.c:54-58 | mg_add_edge: cell [src][dest] becomes 1 and no other cell changes |
| MatrixGraphs.MatrixGraph.HasEdge | Graph/FloydWarshall.c:61-65 | mg_has_edge: 0 or 1, and 1 exactly when cell [src][dest] is set |
| MatrixGraphs.MatrixGraph.RemoveEdge | Graph/FloydWarshall.c:68-72 | mg_remove_edge: cell [src][dest] becomes 0 and no other cell changes |
| MatrixGraphs.Start | Graph/FloydWarshall.c:103-106 | the initial distance: the matrix entry where it is non-zero, INF elsewhere (the diagonal included) |
| MatrixGraphs.D | Graph/FloydWarshall.c:108-116 | the distance after k rounds stays within [1, INF] |
| MatrixGraphs.NeverIncreases | Graph/FloydWarshall.c:110-114 | a relaxation round never increases a distance |
| MatrixGraphs.PivotFixed | Graph/FloydWarshall.c:108-116 | round k leaves row k and column k unchanged, so relaxing in place computes the same round |
| MatrixGraphs.DistanceIsWalk | Graph/FloydWarshall.c:108-116 | a distance below INF after k rounds is the length of a walk from i to j through vertices below k |
| MatrixGraphs.DistanceIsShortest | Graph/FloydWarshall.c:108-116 | every walk with its inner vertices below k is at least as long as the distance after k rounds |
| MatrixGraphs.InitialDistances | Graph/FloydWarshall.c:103-106 | the initialising loops fill `dist` with the round-0 distances |
| MatrixGraphs.RelaxRow | Graph/FloydWarshall.c:110-114 | relaxing row i in place turns it into the round-k+1 row and leaves the others as they were |
| MatrixGraphs.Relax | Graph/FloydWarshall.c:108-116 | one iteration of the k loop turns the round-k table into the round-k+1 table |
| MatrixGraphs.Rows | Graph/FloydWarshall.c:118-125 | the printed rows: INF shown as -1, every other entry unchanged |
| MatrixGraphs.FloydWarshall | Graph/FloydWarshall.c:84-130 | floydWarshall: the printed table is the distance after `nodes` rounds, INF shown as -1 |

## Left out

- Printing and input. `main`, the print routines and the `printf` calls are not modelled. The model returns what would be printed: the components list and count, the "Happy"/"Unhappy" outcome, the Floyd–Warshall rows and the sorted list.
- Allocation and its failure paths. `malloc`/`calloc` failure, `DIE` and freeing are not modelled. Leaks are invisible in the model (the `info` struct in pb2's `ht_put`, `q_clear` on a full queue). The same goes for `free_value_cb`, `ht_free`, `st_free`, `q_free`, `lg_free`, `mg_free` and `trie_free`.
- Byte copies. Elements are generic values: `data_size` and the `memcpy` into fresh buffers are not modelled.
- Bucket and adjacency lists are sequences in an array rather than node chains. The node chains themselves are modelled, once, in the list classes.
- Function-pointer callbacks are plain function parameters.
- Hashes.HashInt: only its range is proved. Its xor-shift rounds are not proved invertible.
- Hashes.HashString: `unsigned char` reads are modelled as the low byte of a character, and `unsigned long` is taken to be 64 bits.
- Comparators.CompareStrings: returns -1 or 1 where strcmp only fixes the sign.
- Comparators.CompareStrings, Hashes.Djb2 and Hashes.HashString read the whole Dafny string. `strcmp` and the djb2 loop stop at the first NUL character, so strings that differ only after an embedded NUL compare equal and hash alike in C but not in the model. The keys in the source are C strings, which hold no NUL before their end.
- NULL stack and queue handles are not modelled. The checks `if (!st)` and `if (!q)` at Graph/comp_conex.c:376-430 and Graph/comp_conex.c:455-522, and the same queue code at Graph/top_sort_kahn.c:175-241, guard a handle that the modelled callers always allocate.
- NULL graph handles and NULL adjacency lists are not modelled: the checks of `graph` and `graph->neighbors` at Graph/comp_conex.c:559, 591, 604 and 618, and at Graph/top_sort_kahn.c:276, 308 and 321. The graph is a class reference that always exists, with one list per vertex.
- `ht_create` with `hmax == 0` is excluded by a precondition, since every later bucket index would divide by zero.
- `ht_remove_entry` of Hashtable/pb2.c:442-453 is not modelled. It dereferences NULL for an absent key, removes the bucket's last node whatever the match, and never decrements `size`.
- Calls that crash in the source are excluded by preconditions:
  - `st_pop` on an empty list;
  - `ll_remove_nth_node` with `n >= size` in the `get_nth_node` variant;
  - trie keys outside 'a'..'z';
  - `mg_*` with out-of-range vertices.
- Trie nodes are immutable values. In-place updates of shared child pointers are not modelled, and node values are ints.
- MatrixGraphs.FloydWarshall: a distance that stays INF is not proved to mean "no walk". That would need a pigeonhole bound on walk lengths, and it also relies on `nodes < INF`.
- TopSorts.TopSort: no topological-order property is stated. The unconditional decrement and the five-slot queue prevent one. Only the NULL condition and the facts about the dequeue order are proved.
- The commented-out DFS of Graph/comp_conex.c:123-154 is not modelled.
- Signed and unsigned `int` overflow is not modelled. No counter in the modelled code comes near the limits.

## Findings

| source | as written | input that shows it | evidently intended | confidence | as-written member | corrected member |
|---|---|---|---|---|---|---|
| Trie/trie.c:94-119 | `trie_insert` never increments `trie->size`, which the struct comment at Trie/trie.c:34-35 calls the number of keys; only `trie_remove` changes it (decrements) | `trie_create`, then `trie_insert(trie, "a", v)`: keys "" and "a" are stored, `size` is 1 | `size` grows by one when a new key is inserted | not executed | Tries.SizeAfterFirstInsert | Tries.Trie.InsertCounting |
