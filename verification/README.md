# Algorithm exercises in C++, modelled in Dafny

This project models the algorithmic core of a collection of C++ exercises on
recursion, trees, hashing, stacks, graphs and priority scheduling, and proves
properties of that model. Each source file becomes one Dafny module; pure
functions over immutable datatypes stand for pointer-based trees and lists,
and methods with loop invariants stand for the array-based algorithms.

| module | file | what it models |
|---|---|---|
| `Common`, `MapFacts` | common.dfy | `Option`, bytes, small map lemmas |
| `BinaryTree` | binary_tree.dfy | owned binary tree: size, height, in-order listing |
| `Library` | library.dfy | the ISBN-keyed book catalogue BST (bts_library.cpp) |
| `Social` | social.dfy | the engagement-score BST of posts (social.cpp) |
| `AdaptiveHashMap` | adaptive_hash_map.dfy | the list/tree bucket hash map (Q3_AdaptiveHashMap.cpp) |
| `CircularStack`, `Editor` | undo_redo.dfy | the flippable circular stack and the undo/redo string editor (CustomStackUndoRedo.cpp) |
| `Huffman`, `HuffmanCodes` | huffman.dfy, huffman_codes.dfy | the fixed-array Huffman tree, code table and encoder (Q2_HuffmanFixedArray.cpp) |
| `Avl` | avl.dfy | plain BST insertion and the AVL balance check (avl.cpp) |
| `Parentheses` | parentheses.dfy | balanced-parentheses generation (parenthesis.cpp) |
| `Josephus` | josephus.dfy | the queue-based Josephus elimination (josephus.cpp) |
| `MaxArea` | max_area.dfy | the two-pointer container-with-most-water recursion (max.cpp) |
| `Decode` | decode.dfy | counting decodings of a digit string (decode.cpp) |
| `Marks` | common.dfy | counting the set entries of a -1-initialised array |
| `GraphMatrix` | graph.dfy | the adjacency-matrix graph with its name map (Q4_GraphAlgorithms.cpp) |
| `GraphDfs` | graph_dfs.dfy | the timestamped depth-first search with parents (Q4_GraphAlgorithms.cpp) |
| `GraphClassify` | graph_classify.dfy | tree/back/forward/cross classification and `DFS_with_classification` (Q4_GraphAlgorithms.cpp) |
| `GraphDijkstra` | graph_dijkstra.dfy | `dijkstra_trace`: selection, relaxation, the main loop and the walk back along `prev` (Q4_GraphAlgorithms.cpp) |
| `Patients` | patient.dfy | the patient record and the average waiting time both managers compute |
| `EmergencySet` | er_set.dfy | the ordered-set emergency-room manager (Q1_EmergencyRoom.cpp) |
| `EmergencyHeap` | er_heap.dfy | the priority-queue emergency-room manager (emergencyroom.cpp) |

Conventions:
- Strings the programs compare as `unsigned char` are modelled as byte
  sequences (`seq<Byte>`); other strings are Dafny strings.
- Integers are unbounded. The only fixed-width arithmetic modelled is the
  64-bit hash of the adaptive hash map, written with `bv64`.
- Clock reads become parameters. Console output is not modelled.
- The adaptive hash map is modelled as its code behaves:
  - the hash multiplies before it XORs (FNV-1 order, not FNV-1a);
  - its offset basis is `1469598103934665603`, one digit shorter than the
    standard FNV basis;
  - the constructor validates nothing;
  - `remove` returns nothing;
  - `search` returns the empty string for a missing key, with no separate
    "not found" outcome;
  - a tree bucket never turns back into a list (see Findings).

## Model

| member | source | states |
|---|---|---|
| Library.InsertCorrect | bts_library.cpp:44-60 | insertion keeps the ISBN search-tree order; it reports a new node exactly when the ISBN was absent; the catalogue maps the ISBN to the merged book (copies added when present) and is otherwise unchanged |
| Library.Insert | bts_library.cpp:44-60 | the key set gains the inserted ISBN and the node count grows by one exactly when a node was created |
| Library.SearchCorrect | bts_library.cpp:94-99 | search finds a book exactly when its ISBN is in the catalogue, and returns the stored book |
| Library.FindMinIsMin | bts_library.cpp:62-65 | the leftmost book is stored and has the least ISBN |
| Library.RemoveCorrect | bts_library.cpp:67-92 | removal keeps the order, deletes exactly that ISBN, reports whether it was present, and shrinks the size by one exactly then |
| Library.RemoveTwoChildren | bts_library.cpp:80-88 | replacing a two-child node by its in-order successor keeps order and content |
| Library.InsertThenRemove | bts_library.cpp:158-169 | inserting a new book and removing it again restores the catalogue |
| Library.UniqueBooks | bts_library.cpp:176-178 | the node count equals the number of distinct ISBNs |
| Library.MaxDepthLongestPath | bts_library.cpp:112-117 | the depth is the number of nodes on a longest root-to-leaf path: no walk from the root reaches a node at that many steps, and a walk one step shorter ends at a leaf |
| Library.ShapeBounds | bts_library.cpp:101-117 | leaves are at most half the nodes plus one; leaves and depth are at most the node count; a non-empty tree has a leaf and depth at least one |
| Library.FindLcaCorrect | bts_library.cpp:190-195 | an empty catalogue has no common ancestor; otherwise, with the ISBNs put in order, none is found exactly when no stored ISBN lies between them, and a found book lies between them and roots a subtree holding every stored ISBN between them |
| Library.FindLcaRecCorrect | bts_library.cpp:119-126 | the lowest common ancestor search returns a subtree of the catalogue that is empty exactly when no ISBN lies in the range, whose root lies in the range, and which holds every ISBN of the range |
| Library.CountCopiesRangeCorrect | bts_library.cpp:128-137 | the pruned range sum equals the sum of copies over the in-order listing restricted to the range |
| Library.CountCopiesInRangeCorrect | bts_library.cpp:202-206 | the public range sum swaps reversed bounds first |
| Library.InsertAllCorrect | bts_library.cpp:158-162 | inserting a list of distinct books keeps order and yields the union of contents, copies merged |
| Library.InorderDistinct | bts_library.cpp:139-144 | the in-order listing is strictly increasing by ISBN |
| Library.MergeFromCorrect | bts_library.cpp:198-202 | merging another catalogue yields the union of both, copies added for shared ISBNs |
| Social.InsertCorrect | social.cpp:49-56 | insertion keeps the score order, ignores a post whose score is already present, and otherwise adds it |
| Social.InsertPost | social.cpp:179-182 | the public insert always answers true |
| Social.FindMin | social.cpp:59-62 | no minimum exactly for the empty tree |
| Social.FindMinCorrect | social.cpp:59-62 | the leftmost post is stored and has the least score |
| Social.FindMaxCorrect | social.cpp:65-68 | the rightmost post is stored and has the greatest score |
| Social.SumInRangeCorrect | social.cpp:71-81 | the pruned range sum equals the sum of scores in the range over the in-order listing |
| Social.ReverseInorderPrefix | social.cpp:84-91 | the reverse in-order walk appends the next posts in descending order until k are collected |
| Social.DescendingStrict | social.cpp:84-91 | the descending listing is strictly decreasing by score |
| Social.GetTopKCorrect | social.cpp:191-195 | top-k returns min(k, size) stored posts in strictly decreasing score, and every post left out scores below all returned ones |
| Social.SuccessorCorrect | social.cpp:102-120 | for a stored score, the successor is the post with the next higher score (none if it is the maximum); for an absent score there is none |
| Social.PredecessorCorrect | social.cpp:123-139 | the same for the next lower score |
| Social.DeleteInRangeCorrect | social.cpp:142-165 | range deletion keeps order, leaves exactly the posts outside the range, and reports whether any post was inside it |
| Social.DemoTopK | social.cpp:234-251 | the demo's top three are Bob, David and Eve |
| Social.DemoNeighbours | social.cpp:253-258 | in the demo, the successor of 2000 is 3000 and the predecessor is 1500 |
| Social.DemoDelete | social.cpp:260-265 | deleting [1500, 3000] in the demo leaves Charlie and Bob |
| AdaptiveHashMap.HashKey | Q3_AdaptiveHashMap.cpp:156-161 | the 64-bit multiply-then-XOR hash reduced modulo the capacity gives an index in range |
| AdaptiveHashMap.HashOfA | Q3_AdaptiveHashMap.cpp:156-161 | the hash of "a" is the multiply-then-XOR value, which differs from the XOR-then-multiply value |
| AdaptiveHashMap.FindKey | Q3_AdaptiveHashMap.cpp:38-53 | the list scan finds the first entry with the key, or reports none exactly when the key is absent |
| AdaptiveHashMap.ListSearch | Q3_AdaptiveHashMap.cpp:50-53 | a list lookup returns the stored value, or the empty string for a missing key |
| AdaptiveHashMap.ListDelete | Q3_AdaptiveHashMap.cpp:55-64 | list deletion removes exactly the first matching entry and decrements the count, or changes nothing |
| AdaptiveHashMap.TreeInsertCorrect | Q3_AdaptiveHashMap.cpp:87-96 | tree insertion keeps order, updates the mapping, and reports a new node exactly for a new key |
| AdaptiveHashMap.TreeSearchCorrect | Q3_AdaptiveHashMap.cpp:98-106 | tree lookup returns the stored value or the empty string |
| AdaptiveHashMap.TreeRemoveCorrect | Q3_AdaptiveHashMap.cpp:115-140 | tree removal keeps order, removes exactly the key, and reports whether it was present |
| AdaptiveHashMap.TreeifyCorrect | Q3_AdaptiveHashMap.cpp:67-75 | converting a list bucket gives a search tree with the same mapping, and the count is increased by the list length |
| AdaptiveHashMap.ListifyCorrect | Q3_AdaptiveHashMap.cpp:78-85 | converting a tree bucket gives its entries sorted by key, with the same mapping |
| AdaptiveHashMap.ListUpsertCorrect | Q3_AdaptiveHashMap.cpp:168-190 | a list-bucket insert updates in place, or appends and converts to a tree exactly when the count passes the threshold |
| AdaptiveHashMap.DemotionNeverFires | Q3_AdaptiveHashMap.cpp:199-208 | a tree bucket's count stays above the threshold after any deletion, so it never turns back into a list |
| AdaptiveHashMap.Insert | Q3_AdaptiveHashMap.cpp:168-190 | an insert changes only the key's bucket |
| AdaptiveHashMap.Remove | Q3_AdaptiveHashMap.cpp:199-214 | a remove changes only the key's bucket |
| AdaptiveHashMap.ConstructCorrect | Q3_AdaptiveHashMap.cpp:164-166 | a new map is valid and every lookup returns the empty string |
| AdaptiveHashMap.SearchCorrect | Q3_AdaptiveHashMap.cpp:192-197 | lookup returns the value the key's bucket maps it to, or the empty string |
| AdaptiveHashMap.InsertCorrect | Q3_AdaptiveHashMap.cpp:168-190 | insert keeps the map valid and sets the key's value, except into a tree bucket whose root is empty, where the entry is lost but counted |
| AdaptiveHashMap.InsertThenSearch | Q3_AdaptiveHashMap.cpp:168-197 | after an insert the key reads back its value (unless lost) and other keys are unchanged |
| AdaptiveHashMap.RemoveCorrect | Q3_AdaptiveHashMap.cpp:199-214 | remove keeps the map valid, deletes exactly the key from its bucket, never changes a bucket's kind, and is a no-op for a missing key |
| AdaptiveHashMap.RemoveThenSearch | Q3_AdaptiveHashMap.cpp:192-214 | after a remove the key reads back empty and other keys are unchanged |
| AdaptiveHashMap.LostInsertScenario | Q3_AdaptiveHashMap.cpp:171-173 | with capacity 1 and threshold 0, a key inserted into the emptied tree bucket cannot be found although the count grew |
| AdaptiveHashMap.NoDemotionScenario | Q3_AdaptiveHashMap.cpp:67-75 | with threshold 3, four inserts give a tree bucket of count 8, and a delete leaves it a tree of count 7 |
| AdaptiveHashMap.InsertIntendedCorrect | Q3_AdaptiveHashMap.cpp:168-190 | the corrected insert always stores the value and reads it back |
| AdaptiveHashMap.RemoveIntendedDemotes | Q3_AdaptiveHashMap.cpp:108-113 | with the corrected count, deleting from a tree bucket at threshold + 1 turns it back into a sorted list with the remaining mapping |
| CircularStack.NewStack | CustomStackUndoRedo.cpp:31-38 | a new stack is valid, empty, unflipped, with the requested capacity |
| CircularStack.Resize | CustomStackUndoRedo.cpp:19-28 | resizing keeps the contents and orientation and moves the bottom to slot 0 |
| CircularStack.StaleTopScenario | CustomStackUndoRedo.cpp:45-54 | a flipped push into an empty stack leaves the top index at -1 |
| CircularStack.Push | CustomStackUndoRedo.cpp:45-54 | the corrected push: it adds the element at the top (at the bottom when flipped), doubles the capacity when full, and leaves a valid stack whose top index points at the last element, also after a flipped push into an empty stack |
| CircularStack.Pop | CustomStackUndoRedo.cpp:56-73 | a pop fails exactly on an empty stack, otherwise removes the top (bottom when flipped) and halves the capacity, not below 5, when at most half full |
| CircularStack.Top | CustomStackUndoRedo.cpp:75-78 | the top is the last element, or the first when flipped; none when empty |
| CircularStack.Flip | CustomStackUndoRedo.cpp:82 | flipping keeps the contents and toggles the orientation |
| CircularStack.PushAgrees | CustomStackUndoRedo.cpp:45-54 | the corrected push equals the push as written except on a flipped empty stack, so the editor's never-flipped stacks behave as written |
| CircularStack.PushPop | CustomStackUndoRedo.cpp:45-73 | popping right after a push returns the pushed element and the original contents |
| CircularStack.FlipDemo | CustomStackUndoRedo.cpp:45-82 | pushing 1..5 and flipping pops 1, 2, 3, 4, 5 in that order |
| Editor.NewEditor | CustomStackUndoRedo.cpp:90-98 | a new editor holds the empty string and empty histories |
| Editor.AddWord | CustomStackUndoRedo.cpp:104-116 | adding a word appends it (with a space unless the text is empty), pushes the old text on the undo history, dropping the newest entry when five are kept, and clears the redo history |
| Editor.Undo | CustomStackUndoRedo.cpp:118-126 | undo restores the newest undo entry and moves the current text to the redo history, or does nothing when there is none |
| Editor.Redo | CustomStackUndoRedo.cpp:128-136 | redo is the mirror image of undo |
| Editor.UndoRedo | CustomStackUndoRedo.cpp:118-136 | redo after undo restores the text and both histories |
| Editor.AddWordUndo | CustomStackUndoRedo.cpp:104-126 | undo after adding a word restores the text |
| Editor.HistoryDropsNewest | CustomStackUndoRedo.cpp:106-107 | after six words the undo history keeps the four oldest texts and the newest one, dropping "a b c d" |
| Huffman.LeavesFrom | Q2_HuffmanFixedArray.cpp:29-40 | the leaf scan yields active leaves in strictly ascending byte order, each with its occurrence count as frequency |
| Huffman.BuildInitial | Q2_HuffmanFixedArray.cpp:29-40 | the initial arena has between 1 and 256 active leaves in ascending byte order |
| Huffman.BuildInitialEmpty | Q2_HuffmanFixedArray.cpp:36-39 | the empty input yields the single dummy leaf for byte 0 with frequency 1 |
| Huffman.BuildInitialPresent | Q2_HuffmanFixedArray.cpp:29-35 | for non-empty input every leaf carries its byte's count, every occurring byte has a leaf, and the frequencies sum to the input length |
| Huffman.CountActive | Q2_HuffmanFixedArray.cpp:45-47 | the counting loop returns the number of active slots |
| Huffman.FirstActive | Q2_HuffmanFixedArray.cpp:48-51 | the root search returns the first active slot |
| Huffman.SelectTwoMin | Q2_HuffmanFixedArray.cpp:53-62 | the selection returns two distinct active slots; the first is lighter than every other active slot and the second than every remaining one, ties going to the lower index |
| Huffman.Merge | Q2_HuffmanFixedArray.cpp:64-71 | a merge deactivates both children and appends one active node |
| Huffman.MergeCounts | Q2_HuffmanFixedArray.cpp:64-71 | a merge lowers the active count by one and keeps the total active frequency |
| Huffman.MergeStep | Q2_HuffmanFixedArray.cpp:53-71 | one merge keeps the construction invariant: leaves unchanged, internal frequency is the sum of the children, active subtrees partition the leaves |
| Huffman.BuildHuffmanTree | Q2_HuffmanFixedArray.cpp:42-74 | the construction ends with 2L-1 slots within the array bound, whose last slot is the only active one, a full binary tree over all L leaves whose frequency is the total |
| HuffmanCodes.BuildCodesRec | Q2_HuffmanFixedArray.cpp:76-86 | the walk only writes non-empty codes that extend the current path, over 0 and 1 |
| HuffmanCodes.GenerateCodesCorrect | Q2_HuffmanFixedArray.cpp:76-91 | every leaf byte gets a non-empty code over 0 and 1, a lone byte gets "0", all other bytes get the empty code, and the table is prefix-free |
| HuffmanCodes.LeafCodesPrefixFree | Q2_HuffmanFixedArray.cpp:80-85 | no code of a subtree is a prefix of another, because siblings differ in the bit after their common path |
| HuffmanCodes.EncodeConcat | Q2_HuffmanFixedArray.cpp:93-99 | encoding a concatenation is the concatenation of the encodings |
| HuffmanCodes.EncodeBits | Q2_HuffmanFixedArray.cpp:93-99 | the encoding consists of 0 and 1 only |
| HuffmanCodes.DecodeEncode | Q2_HuffmanFixedArray.cpp:93-99 | with a prefix-free table covering the input, decoding the encoding returns the input |
| HuffmanCodes.PipelinePresent | Q2_HuffmanFixedArray.cpp:29-91 | every byte of the input gets a non-empty code |
| HuffmanCodes.PipelineAbsent | Q2_HuffmanFixedArray.cpp:29-91 | a byte absent from non-empty input gets the empty code |
| HuffmanCodes.PipelineEmpty | Q2_HuffmanFixedArray.cpp:29-91 | the empty input codes only byte 0, as "0" |
| HuffmanCodes.Compress | Q2_HuffmanFixedArray.cpp:102-120 | the driver's pipeline yields a prefix-free table covering exactly the input's bytes and an encoding over 0 and 1 that decodes back to the input |
| Avl.InsertSize | avl.cpp:13-20 | insertion adds exactly one node |
| Avl.InsertValues | avl.cpp:13-20 | the multiset of values gains the inserted value |
| Avl.InsertKeepsBst | avl.cpp:13-20 | insertion keeps the order left < node <= right |
| Avl.CheckHeight | avl.cpp:23-33 | the helper returns the tree height and clears the flag exactly when some node's child heights differ by more than one |
| Avl.IsAvl | avl.cpp:36-40 | the check is true exactly for height-balanced trees |
| Avl.InsertAllCorrect | avl.cpp:49-51 | inserting a sequence gives a search tree holding exactly its values |
| Avl.DemoNotAvl | avl.cpp:46-56 | the demo sequence 50, 30, 70, 60, 80, 90 yields a tree that is not balanced |
| Parentheses.GenerateAllCorrect | parenthesis.cpp:6-20 | exactly the balanced strings of n pairs are produced, each of length 2n, in strictly increasing order with '(' before ')', so without repeats |
| Parentheses.GenerateSound | parenthesis.cpp:8-19 | every string produced from a state completes it to a balanced string |
| Parentheses.GenerateComplete | parenthesis.cpp:8-19 | every balanced completion of a state is produced |
| Parentheses.TwoPairs | parenthesis.cpp:23-30 | for n = 2 the result is "(())", "()()" |
| Josephus.Survivor | josephus.cpp:5-26 | the recurrence's survivor lies in 1..m |
| Josephus.Round | josephus.cpp:14-22 | one round rotates the queue by k-1 and removes its front; the removed person and the rest make up the old queue |
| Josephus.Josephus | josephus.cpp:5-26 | for n >= 1 the survivor lies in 1..n, equals J(n) of the recurrence J(1) = 1, J(m) = (J(m-1) + k - 1) mod m + 1, and is n when k <= 1 |
| MaxArea.MaxAreaRec | max.cpp:6-18 | the result is 0 when the pointers meet and otherwise at least the current area |
| MaxArea.MaxAreaOptimal | max.cpp:6-18 | for non-negative heights the result is the maximum area over all pairs in the range, attained by some pair |
| MaxArea.DemoArea | max.cpp:21-22 | the demo heights give 49 |
| Decode.DecodingsExact | decode.cpp:5-23 | a splitting is a decoding exactly when its tokens are "1".."9" or "10".."26" and concatenate to the string |
| Decode.DecodeWaysCounts | decode.cpp:5-23 | for digit strings the result is the number of decodings of the suffix from the index |
| Decode.DemoDecode | decode.cpp:26-27 | "11106" has 2 decodings |
| GraphMatrix.IndexMap | Q4_GraphAlgorithms.cpp:16-17 | recording the names in order maps exactly the listed names, each to a position holding it with no later position holding it |
| GraphMatrix.NewGraph | Q4_GraphAlgorithms.cpp:12-20 | a new graph has an n-by-n matrix with 0 on the diagonal and INF elsewhere, and its name map holds exactly the listed names, each at its last position |
| GraphMatrix.NewGraphCorrect | Q4_GraphAlgorithms.cpp:12-20 | the edges of a new graph are exactly the self-loops, and a name listed once is looked up at its own index |
| GraphMatrix.AddDirectedEdge | Q4_GraphAlgorithms.cpp:22-25 | only the cell of the looked-up pair changes, to the new weight; an unknown name is recorded at index 0, so every lookup answers as before |
| GraphDfs.InsertSorted | Q4_GraphAlgorithms.cpp:123-125 | inserting a vertex into a neighbour list sorted by name and index keeps it sorted and adds exactly that vertex |
| GraphDfs.Neighbours | Q4_GraphAlgorithms.cpp:123-125 | the visiting order lists exactly the vertices with an edge from u, sorted by name and then by index |
| GraphDfs.VisitCore | Q4_GraphAlgorithms.cpp:120-134 | one call discovers u at the next tick with the given parent, discovers every neighbour of u before finishing u, finishes every vertex it discovers, and leaves earlier stamps and parents alone |
| GraphDfs.Dfs | Q4_GraphAlgorithms.cpp:117-135 | the search from fresh arrays yields arrays of length n with the start discovered at tick 1 |
| GraphDfs.DfsStamps | Q4_GraphAlgorithms.cpp:120-134 | every tick 1..time goes to exactly one discovery or one finish, and a vertex finishes after its discovery |
| GraphDfs.DfsNested | Q4_GraphAlgorithms.cpp:120-134 | two discovery intervals are nested or disjoint |
| GraphDfs.DfsClosed | Q4_GraphAlgorithms.cpp:126-133 | a finished vertex discovered every neighbour before its finish |
| GraphDfs.DfsFinished | Q4_GraphAlgorithms.cpp:120-135 | every discovered vertex is finished when the search returns |
| GraphDfs.DfsParents | Q4_GraphAlgorithms.cpp:126-131 | exactly the discovered vertices other than the start have a parent; a parent has an edge to its child, was discovered earlier, and was the innermost open vertex when the child was discovered |
| GraphDfs.DfsOrdered | Q4_GraphAlgorithms.cpp:85-86 | the finishing order lists exactly the finished vertices, by increasing finish time |
| GraphDfs.DfsCorrect | Q4_GraphAlgorithms.cpp:117-135 | the search keeps all of the above together and leaves no vertex open |
| GraphClassify.ClassifyCorrect | Q4_GraphAlgorithms.cpp:137-147 | every edge cell lands in the list of its kind and in no other, no other cell is listed, and each list is in row-major order without repeats |
| GraphClassify.ClassifyCell | Q4_GraphAlgorithms.cpp:139-146 | a cell is in the list of kind k exactly when it is an edge whose test gives k |
| GraphClassify.TreeEdgesAreParents | Q4_GraphAlgorithms.cpp:142 | (u, v) is a tree edge exactly when the search recorded u as the parent of v |
| GraphClassify.DiagonalCross | Q4_GraphAlgorithms.cpp:141-145 | a self-loop, such as every diagonal cell of a fresh matrix, is classified as a cross edge |
| GraphClassify.UnreachedRowCross | Q4_GraphAlgorithms.cpp:143-145 | an edge out of a vertex the search never reached is classified as a cross edge |
| GraphClassify.BackForwardReached | Q4_GraphAlgorithms.cpp:143-144 | back and forward edges join two reached vertices whose intervals nest as the names say |
| GraphClassify.EdgeStamps | Q4_GraphAlgorithms.cpp:120-134 | for an edge from a finished vertex to another vertex, the target was discovered before that finish, the two get different stamps, and their intervals are nested or disjoint |
| GraphClassify.CrossEdgesPointBack | Q4_GraphAlgorithms.cpp:145 | a cross edge out of a reached vertex points at a vertex that finished before the source was discovered |
| GraphClassify.ClassifyNames | Q4_GraphAlgorithms.cpp:138-147 | each list, in names, holds a name pair exactly when some edge cell of that kind joins vertices with those names |
| GraphClassify.OrderNames | Q4_GraphAlgorithms.cpp:149-150 | the printed post-order names the finished vertices by increasing finish time |
| GraphClassify.ReportCorrect | Q4_GraphAlgorithms.cpp:45-161 | the report gives the post-order of the search from the looked-up start and, for each kind, exactly the name pairs of the edges of that kind |
| GraphDijkstra.PathExtend | Q4_GraphAlgorithms.cpp:184 | extending a path by one edge gives a path from the same vertex whose cost grows by that edge's weight |
| GraphDijkstra.SelectMin | Q4_GraphAlgorithms.cpp:176-177 | the scan returns -1 exactly when every unvisited vertex is at INF, and otherwise the unvisited vertex of least distance below INF, the lowest index among ties |
| GraphDijkstra.Relax | Q4_GraphAlgorithms.cpp:182-190 | each column whose edge offers a strictly shorter route through u takes that distance and u as predecessor, reading dist[u] as the loop sees it; distances never rise and any changed predecessor is u |
| GraphDijkstra.LowerBound | Q4_GraphAlgorithms.cpp:174-190 | with non-negative weights, any path from the source to an unprocessed vertex costs at least the least unprocessed distance |
| GraphDijkstra.Dijkstra | Q4_GraphAlgorithms.cpp:166-198 | for any weights, predecessor links are edges from processed vertices and every finite distance has a link back; a processed target was the last vertex processed, and an unprocessed one means every unprocessed vertex is at INF/2 or more; with non-negative weights the processed distances are exact along the links and shortest |
| GraphDijkstra.ChainShape | Q4_GraphAlgorithms.cpp:204-206 | whatever the weights, a walk back along prev that ends yields a path from the source to the vertex |
| GraphDijkstra.ChainFound | Q4_GraphAlgorithms.cpp:204-206 | with non-negative weights the walk ends, and its path costs exactly the vertex's distance |
| GraphDijkstra.ReportShape | Q4_GraphAlgorithms.cpp:199-209 | a reported route is a path from the source to the target, with cost below INF/2 |
| GraphDijkstra.ReportFound | Q4_GraphAlgorithms.cpp:199-209 | with non-negative weights a processed target yields a route costing exactly the reported cost, and no path is cheaper |
| GraphDijkstra.ReportSettled | Q4_GraphAlgorithms.cpp:199-209 | with non-negative weights the walk never loops, a route is the cheapest path, and "unreachable" means no path costs below INF/2 |
| GraphDijkstra.DijkstraTrace | Q4_GraphAlgorithms.cpp:164-210 | any reported route runs from the source's index to the destination's, with cost below INF/2; with non-negative weights the walk ends, a route costs its reported cost and no path is cheaper, and "unreachable" means every path costs INF/2 or more |
| GraphDijkstra.TraceUnreachable | Q4_GraphAlgorithms.cpp:199-202 | with non-negative weights, a target reported unreachable has no path below INF/2 |
| GraphDijkstra.TraceFound | Q4_GraphAlgorithms.cpp:197-209 | with non-negative weights, a reached target's distance is at most the cost of every path to it |
| Patients.WaitCount | emergencyroom.cpp:91-102 | the number of selected history entries is at most the history length, and is zero exactly when none is selected |
| Patients.AverageWait | emergencyroom.cpp:91-102 | the average is 0 when no entry is selected, and otherwise times the count it gives the summed waits |
| Patients.WaitAppend | emergencyroom.cpp:91-102 | the summed waits and the count split over appended histories |
| EmergencySet.BeforeIsLex | Q1_EmergencyRoom.cpp:34-41 | the comparator is lexicographic order on (severity, arrival, minus age, ID) |
| EmergencySet.BeforeStrictTotal | Q1_EmergencyRoom.cpp:34-41 | the comparator is irreflexive, asymmetric and transitive, and orders any two patients unless their keys are equal |
| EmergencySet.EquivalentIffSameKey | Q1_EmergencyRoom.cpp:34-41 | the set treats two patients as one exactly when their keys are equal, so equivalent patients share an ID |
| EmergencySet.InsertSorted | Q1_EmergencyRoom.cpp:56 | inserting a patient equivalent to no element keeps the set ordered and adds exactly that patient |
| EmergencySet.SetInsert | Q1_EmergencyRoom.cpp:56 | insertion reports success exactly when no element is equivalent; on success it adds the patient and points at it, otherwise it leaves the set alone and points at the equivalent element |
| EmergencySet.Erase | Q1_EmergencyRoom.cpp:74 | erasing an element keeps the set ordered and removes exactly that element |
| EmergencySet.EmptyValid | Q1_EmergencyRoom.cpp:50 | a new manager is consistent and its map is an index of its set |
| EmergencySet.Admitted | Q1_EmergencyRoom.cpp:53-55 | only the admission time changes, to the clock reading exactly when it was 0 |
| EmergencySet.Admit | Q1_EmergencyRoom.cpp:52-62 | admission keeps the manager consistent; when the patient is equivalent to no element it is added and the map entry of its ID points at it, otherwise nothing changes |
| EmergencySet.AdmitIndexed | Q1_EmergencyRoom.cpp:52-62 | admitting a patient whose ID is not in the set keeps the map an index of the set |
| EmergencySet.AdmitWaiting | Q1_EmergencyRoom.cpp:52-62 | admitting an unassigned patient leaves every patient in the set unassigned |
| EmergencySet.Update | Q1_EmergencyRoom.cpp:64-78 | "not found" exactly when the ID has no map entry, "already assigned" exactly when its patient has a stamp, otherwise a consistent manager with the same history and the same map keys |
| EmergencySet.UpdateReplaces | Q1_EmergencyRoom.cpp:73-77 | with distinct IDs a successful update replaces exactly the patient with its re-graded copy, keeps the size, points the ID at the copy and keeps the map an index |
| EmergencySet.UpdateNeverAssigned | Q1_EmergencyRoom.cpp:70-72 | while every patient in the set is unassigned, the "already assigned" exception cannot occur |
| EmergencySet.UpdateWaiting | Q1_EmergencyRoom.cpp:64-78 | an update leaves every patient in the set unassigned |
| EmergencySet.AssignDoctors | Q1_EmergencyRoom.cpp:80-93 | min(available, size) patients are assigned, none for a non-positive count; they are the first ones in set order, stamped with the clock reading of their iteration and appended to the history in that order, and their map entries are removed |
| EmergencySet.AssignValid | Q1_EmergencyRoom.cpp:80-93 | assignment keeps the manager consistent; the assigned patients come in order, each before every patient still waiting; the map stays an index and the waiting patients stay unassigned |
| EmergencySet.AverageWaitingTime | Q1_EmergencyRoom.cpp:95-106 | the average is 0 when no history entry of that severity carries a stamp |
| EmergencyHeap.LowerStrictWeak | emergencyroom.cpp:25-34 | the comparator is a strict weak order whose ties are exactly the patients agreeing on severity, arrival and age |
| EmergencyHeap.HighestIsFirstInLine | emergencyroom.cpp:25-34 | a patient no entry outranks is exactly one with the lowest severity, then the earliest arrival among those, then the greatest age among those |
| EmergencyHeap.Top | emergencyroom.cpp:78 | the top is an entry no entry outranks, and every entry before it ranks strictly below it |
| EmergencyHeap.Without | emergencyroom.cpp:79 | popping removes exactly the chosen entry |
| EmergencyHeap.Get | emergencyroom.cpp:51 | a record is found exactly when its ID is known, and it is a stored record with that ID |
| EmergencyHeap.Put | emergencyroom.cpp:46 | storing a record adds its ID, keeps every record with another ID, adds nothing else and keeps the IDs distinct |
| EmergencyHeap.GetPut | emergencyroom.cpp:46 | after storing a record, its ID finds it and every other ID finds what it found before |
| EmergencyHeap.Unassigned | emergencyroom.cpp:64-68 | the rebuilt queue holds exactly the records without a stamp |
| EmergencyHeap.UnassignedUnique | emergencyroom.cpp:64-68 | the rebuilt queue holds each of those records once |
| EmergencyHeap.Admit | emergencyroom.cpp:44-47 | admission queues the patient once more and stores its record under its ID, replacing an earlier one, leaving every other record alone |
| EmergencyHeap.AdmitConsistent | emergencyroom.cpp:44-47 | admitting under a new ID keeps every queued patient queued once and equal to its record |
| EmergencyHeap.Update | emergencyroom.cpp:50-70 | "not found" exactly for an unknown ID, "already assigned" exactly for a stamped record; otherwise only that record's severity changes and the queue becomes exactly the unstamped records, each once and equal to its record |
| EmergencyHeap.UpdateRequeuesWaiting | emergencyroom.cpp:63-69 | after an update the queue holds only unassigned patients, and an ID is queued exactly when its record is unassigned |
| EmergencyHeap.GetStamp | emergencyroom.cpp:81 | stamping changes only the record of that ID, setting its assignment time |
| EmergencyHeap.AssignDoctors | emergencyroom.cpp:73-88 | min(available, queue size) entries are popped, none for a non-positive count; the popped entries and the remaining queue together make up the old queue; no popped entry ranks below an entry still queued or an entry popped after it; the i-th new history entry is the i-th popped ID's old record stamped with the clock modulo 100000; exactly the records of popped IDs are stamped and every other record is unchanged; when the queue matched the records, nobody still waiting outranks an assigned patient and the patients are assigned in priority order |
| EmergencyHeap.AverageWaitingTime | emergencyroom.cpp:91-102 | the average is 0 when no history entry has that severity |

## Left out

- Console I/O: every `main` except where a demo's result is stated as a lemma; menus; tracing output; printing helpers.
- Memory management: `new`/`delete`, destructors and copy semantics; trees and lists are owned values.
- Fixed-width overflow: 32-bit sums in the range sums, areas and decode counts; `stoi` on non-digits (decode.cpp:17) is excluded by requiring a digit string.
- AdaptiveHashMap.Construct: the capacity is a natural number. A negative `cap` makes `buckets(cap)` throw (Q3_AdaptiveHashMap.cpp:164), and that error path is not modelled.
- AdaptiveHashMap.Insert, AdaptiveHashMap.Search, AdaptiveHashMap.Remove: they require a positive capacity. With capacity 0, `h % capacity` in `hashKey` (Q3_AdaptiveHashMap.cpp:160) divides by zero, and that undefined behaviour is not modelled.
- Josephus.Josephus: it requires n >= 1. For n <= 0 the queue stays empty and `q.front()` (josephus.cpp:25) is undefined behaviour, which is not modelled.
- Social.GetTopK: a negative `k` converted to an unsigned size is not modelled; `k` is a natural number.
- CircularStack.NewStack: a capacity below 1 (a zero-length array) is excluded by its precondition.
- CircularStack.Push: models the corrected push. As written (CustomStackUndoRedo.cpp:47-53), a flipped push into an empty stack leaves `topIndex` at -1; `PushAsWritten` and `StaleTopScenario` model that behaviour (see Findings).
- CircularStack.Resize: the default-valued filler slots are modelled by a `blank` element supplied at construction.
- HuffmanCodes.Decode: the source has no decoder; this reference decoder exists only to state that the encoding can be inverted.
- Huffman: frequencies are `long long` counts of at most the input length, so no overflow is modelled.
- Graph printing (`printAdjMatrix`, the trace output of both traversals and of `dijkstra_trace`) is not modelled.
- GraphMatrix: weights are unbounded integers, so the 64-bit overflow of `dist[u] + adj[u][v]` is not modelled; INF is 2^60 as in the source.
- GraphClassify.DfsWithClassification: the first traversal (Q4_GraphAlgorithms.cpp:52-98) is not modelled separately. It discovers vertices in the same order as the second one, its classification loop (lines 100-113) has an empty body, and only its post-order is printed. The model reports the post-order of the second traversal, which is the same.
- GraphMatrix.AddDirectedEdge: it requires a non-empty graph. With no vertices, `adj[iu][iv]` (Q4_GraphAlgorithms.cpp:24) indexes an empty matrix, which is undefined behaviour and is not modelled.
- GraphClassify.DfsWithClassification: it requires a non-empty graph. With no vertices, the searches from `indexOf[start]` (Q4_GraphAlgorithms.cpp:97 and 135) write `disc` and `fin` out of range, which is undefined behaviour and is not modelled.
- GraphClassify.ReportCorrect: it requires a non-empty graph, for the same out-of-range writes of `DFS_with_classification` on an empty graph.
- GraphDijkstra.DijkstraTrace: it requires a non-empty graph. With no vertices, `dist[s] = 0` (Q4_GraphAlgorithms.cpp:169) writes past an empty vector, which is undefined behaviour and is not modelled.
- GraphMatrix.Lookup: `indexOf[c]` on an unknown name inserts it with index 0; the model answers 0 and records the name only where the source writes the map back (`addDirectedEdge`).
- GraphDijkstra.Report: with negative weights `prev` can form a cycle, and the source's walk back from the target then never ends; the model walks at most n+1 steps and reports `Endless` instead.
- Names are compared as `char`; their signedness is not modelled.
- Clock readings (`time`, `now_minutes_since_midnight`) are parameters.
- The 32-bit `int` fields and counters of both emergency-room managers are unbounded integers.
- Patients.AverageWait: the result is an exact `real`, not a rounded `double`; the integer sums are unbounded.
- EmergencySet: the default constructor `Patient()` leaves its fields unset; only fully initialised patients are modelled.
- EmergencyHeap.Top: the standard heap may return any of several tied entries; the model returns the first, and its contract promises only that no entry outranks it.
- EmergencyHeap.Update: the rebuild visits the record map in an unspecified order; the model visits records in the order their IDs were first stored, which only affects the choice among tied entries.
- EmergencyHeap: `Patient` (emergencyroom.cpp:9-22) declares only a six-argument constructor, but `unordered_map::operator[]` needs a default-constructible value type, so every `allPatients[...]` (emergencyroom.cpp:46, 55, 61, 81 and 82) fails to compile as written, whatever the ID. The model reads lines 46 and 61 as insert-or-assign and lines 55, 81 and 82 as lookups of an existing record.
- EmergencyHeap.AssignDoctors: every queued ID must have a record (its `Valid` precondition), since reading `allPatients[top.patientID]` for a missing ID would need the default `Patient` that does not exist.
- Display helpers (`displayQueue`, `printQueue`) are not modelled.

## Findings

| source | as written | input that shows it | evidently intended | confidence | as-written member | corrected member |
|---|---|---|---|---|---|---|
| Q3_AdaptiveHashMap.cpp:171-173 | a tree-mode insert into a bucket whose root is empty allocates the node but does not attach it | capacity 1, threshold 0: insert "a", remove "a", insert "b"; "b" cannot be found | the new node becomes the root | not executed | AdaptiveHashMap.LostInsertScenario | AdaptiveHashMap.InsertIntendedCorrect |
| Q3_AdaptiveHashMap.cpp:67-75 | treeify re-inserts every entry through the tree insert, which increments a count that already holds the list length, so a tree bucket's count stays above the threshold and the demotion in `remove` never fires | threshold 3: four inserts give count 8; a delete leaves count 7 and a tree | the count equals the number of entries, so a tree at the threshold turns back into a list | not executed | AdaptiveHashMap.NoDemotionScenario | AdaptiveHashMap.RemoveIntendedDemotes |
| CustomStackUndoRedo.cpp:47-53 | a push onto an empty flipped stack moves the bottom index but leaves the top index at -1 | capacity 5, flip, push 7: the top index is -1 | the top index also points at the only element | not executed | CircularStack.StaleTopScenario | CircularStack.Push |
