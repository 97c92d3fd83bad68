# goit-algo-fp: a verified model of the algorithmic exercises

This project models the algorithmic core of the goit-algo-fp exercises and
proves what they promise. There are four parts:

- **Dijkstra and path recovery** (module `Dijkstra`, `dijkstra.dfy`).
  - `Run` is the lazy-deletion relaxation loop over a distance table, a
    predecessor table and a priority frontier.
  - The frontier is a multiset of `(distance, vertex)` entries. A pop yields
    any entry of least distance.
  - A popped entry whose distance is no longer the recorded one is stale and
    is skipped.
  - Scanning an edge of negative weight makes the run fail with
    `NegativeWeight`, the model of the raised `ValueError`.
  - `RestorePath` follows the predecessor table back from the target,
    reverses the walk, and keeps it only when it begins at the start.
  - `Sample` is `main`: it runs on the five-vertex example graph and
    restores the path to `E`.
- **The singly linked list** (module `LinkedList`, `linked_list.dfy`).
  - Nodes are objects with a `next` field. Each list is described by a ghost
    sequence of its nodes.
  - `SinglyLinkedList` appends, lists its values, reverses its pointers in
    place and merge sorts itself.
  - `SplitMiddle` (slow and fast pointers), `MergeSortedLists` (behind a
    dummy node) and `MergeSort` relink the existing nodes.
- **Knapsack solvers** (module `Knapsack`, `knapsack.dfy`).
  - The menu is a sequence of `Item(name, cost, calories)` in the
    dictionary's order.
  - `Greedy` visits the items by non-increasing calories per unit of cost
    and takes each one that still fits.
  - `DynamicProgramming` fills a one-dimensional `dp` array and a `parent`
    array with budgets descending. It picks the first best budget and walks
    back through `parent`.
- **Heap layout and breadth-first collection** (modules `HeapTree` and
  `BinaryTree`).
  - `HeapToTree` builds one node per array element and links node `i` to
    nodes `2i+1` and `2i+2`.
  - `CollectNodesBfs` is the queue-based level-order walk of a tree of
    nodes.
  - `LevelOrderKeys` composes the two and gets the array back.

A ghost datatype `Shape` describes the tree hanging from a node, and `Bfs`
is the level order of a queue of shapes.

`options.dfy` holds the `Option` type. `sequences.dfy` holds `Reversed` with
its lemma, and `Distinct` and `Objects` for sequences of nodes. Both are
shared by the other modules.

## Model

| member | source | states |
|---|---|---|
| Dijkstra.Run | task_3_dijkstra.py:9-37 | the run fails exactly when a vertex reachable from the start has an edge of negative weight; otherwise the tables are `Solved`: both have the graph's keys, the start is at 0 with no predecessor, a vertex is unreached exactly when it has no predecessor, every edge leaving a reached vertex is relaxed and non-negative, each predecessor link is a tight edge, and the links descend along a rank |
| Dijkstra.Turn | task_3_dijkstra.py:21-35 | one turn pops an entry of least distance; a stale entry changes nothing but removes itself from the heap; a fresh one fails exactly when its vertex has a negative edge (which is then reachable from the start), and otherwise the turn keeps the loop invariant, no distance grows, the termination measure drops, and tables and frontier change only on a strict improvement: every new frontier entry is for a vertex whose distance dropped, and a vertex whose distance stayed, on a tie too, keeps its predecessor |
| Dijkstra.ScanEdges | task_3_dijkstra.py:28-35 | the edge scan fails exactly when the vertex has a negative edge; otherwise all its edges are relaxed, the invariant is kept, and no distance grows; old frontier entries stay, every pushed entry is for a vertex whose distance dropped, and a vertex whose distance stayed (a tie included) keeps its predecessor |
| Dijkstra.MinEntry | task_3_dijkstra.py:22 | a non-empty frontier has an entry of least distance, so the pop is always possible |
| Dijkstra.FinalTables | task_3_dijkstra.py:21-37 | once the frontier is empty, the loop invariant gives `Solved` tables |
| Dijkstra.WalkBound | task_3_dijkstra.py:12 | with relaxed edges and the start at 0, every walk from the start ends at a reached vertex whose distance is at most the walk's weight |
| Dijkstra.SolvedNoNegativeReachable | task_3_dijkstra.py:28-30 | solved tables rule out any negative edge reachable from the start |
| Dijkstra.ShortestDistances | task_3_dijkstra.py:12 | in solved tables a distance is finite exactly when the vertex is reachable; some walk realises it; and no walk to the vertex is lighter |
| Dijkstra.ChainWalk | task_3_dijkstra.py:13 | the reversed predecessor chain of a reached vertex is the trail of a walk from the start whose weight is the vertex's distance |
| Dijkstra.ChainLinks | task_3_dijkstra.py:46-49 | along the backward walk each vertex's predecessor is the next vertex, and the last vertex has none |
| Dijkstra.RestoreShape | task_3_dijkstra.py:40-54 | the restored path is `[start]` exactly when start equals target; otherwise it is `[]` or runs from start to target, each vertex the predecessor of the next |
| Dijkstra.RestorePath | task_3_dijkstra.py:40-54 | the loop returns the path `Restore` describes: the early return for start equals target, the reversed backward walk, and `[]` when that walk does not begin at the start |
| Dijkstra.RestoreSolved | task_3_dijkstra.py:40-54 | over solved tables the restored path is the trail of a shortest walk to every reached target, and `[]` for every unreached one |
| Dijkstra.PotentialBound | task_3_dijkstra.py:12 | a potential that is 0 at the start and never drops by more than an edge's weight bounds every solved distance from below |
| Dijkstra.SampleDist | task_3_dijkstra.py:59-68 | every solved table of the example graph from `A` has A 0, B 3, C 2, D 8, E 10, whatever the tie-breaking |
| Dijkstra.SamplePath | task_3_dijkstra.py:74-75 | over those tables the path restored to `E` is A, C, B, D, E |
| Dijkstra.Sample | task_3_dijkstra.py:57-76 | `main` gives the sample distances and the path A, C, B, D, E |
| LinkedList.Node.constructor | task_1_linked_list.py:6-9 | a new node holds its value and has no successor |
| LinkedList.SinglyLinkedList.constructor | task_1_linked_list.py:13-16 | the new list holds exactly the given values, in order |
| LinkedList.SinglyLinkedList.Append | task_1_linked_list.py:18-26 | the contents become the old contents plus the value, and the old nodes keep their order ahead of one fresh last node |
| LinkedList.LastNode | task_1_linked_list.py:23-25 | the walk stops at the last node of a non-empty list, whose `next` is null |
| LinkedList.SinglyLinkedList.ToList | task_1_linked_list.py:28-34 | the values met from the head to the end are the list's contents |
| LinkedList.SinglyLinkedList.Reverse | task_1_linked_list.py:37-45 | the same nodes now form the list in reverse order, so the contents are reversed |
| LinkedList.ReverseNodes | task_1_linked_list.py:38-44 | the pointer-turning loop returns the head of the reversed chain |
| LinkedList.SinglyLinkedList.Sort | task_1_linked_list.py:48-49 | the list holds the same nodes, with values sorted and the multiset of values unchanged |
| LinkedList.SplitMiddle | task_1_linked_list.py:53-73 | with n >= 2 nodes, the first n/2 (rounded down) and the last n - n/2 become two separate lists; a single node is returned as both halves; an empty list gives two nulls |
| LinkedList.MergeSortedLists | task_1_linked_list.py:76-94 | the result is the list of the nodes of both inputs in the order `Merge` describes |
| LinkedList.TakeSmaller | task_1_linked_list.py:84-91 | one round links the head with the smaller value, or `a`'s head on a tie, and advances that input |
| LinkedList.LinkRest | task_1_linked_list.py:93 | linking the leftover input completes the merged list |
| LinkedList.MergeElements | task_1_linked_list.py:76-94 | the merge holds every node of both inputs, each as often as the inputs together do |
| LinkedList.MergeValues | task_1_linked_list.py:76-94 | the merged values are the multiset union of the input values |
| LinkedList.MergeSorted | task_1_linked_list.py:76-94 | merging two sorted lists gives a sorted list |
| LinkedList.MergeStable | task_1_linked_list.py:85 | a node of `b` comes before a node of `a` only when its value is strictly smaller, so on equal values `a`'s node comes first |
| LinkedList.MergeDistinct | task_1_linked_list.py:84-93 | merging two lists of distinct nodes that share none gives distinct nodes |
| LinkedList.MergeSort | task_1_linked_list.py:97-105 | the result is a sorted permutation of the input nodes and values; lists of zero or one node come back unchanged |
| LinkedList.SortedUnique | task_1_linked_list.py:97-105 | two sorted sequences with the same elements are equal, so the sorted values are determined by the input |
| Knapsack.RankingOrder | task_6_greedy.py:25-32 | the visit order is a permutation of the item positions, non-increasing in calories per cost, with ties in the dictionary's order |
| Knapsack.RankedPositions | task_6_greedy.py:25-32 | building and sorting `ranked` gives that visit order |
| Knapsack.TakeWhileFits | task_6_greedy.py:34-44 | the running totals are the names, cost and calories of the items taken, each taken exactly when it still fits |
| Knapsack.Greedy | task_6_greedy.py:17-44 | the greedy result describes the items that fit when visited in ratio order |
| Knapsack.PickedWithinBudget | task_6_greedy.py:38-43 | the greedy cost never exceeds the budget; a negative budget takes nothing |
| Knapsack.PickedFromVisited | task_6_greedy.py:38-40 | each item is taken at most as often as it is visited, so at most once |
| Knapsack.PickedMaximal | task_6_greedy.py:38-39 | a skipped item does not fit into what remains of the budget at the end |
| Knapsack.OptIsBest | task_6_greedy.py:49-72 | after the first i items, `dp[b]` is the most calories of any subset of them within cost b, and some subset attains it |
| Knapsack.RecoverBest | task_6_greedy.py:64-72 | a subset within budget b recovered from the full table attains `dp[b]` |
| Knapsack.OptGrows | task_6_greedy.py:64-72 | processing another item never lowers an entry, and a larger budget never holds less |
| Knapsack.RelaxItem | task_6_greedy.py:65-72 | one descending pass turns the tables of the first i items into those of the first i+1 |
| Knapsack.FirstMax | task_6_greedy.py:75 | `best_b` is the first position of a maximal entry |
| Knapsack.BestBudget | task_6_greedy.py:75 | the first best budget holds the optimum for the whole budget, and every smaller budget holds strictly less |
| Knapsack.WalkBack | task_6_greedy.py:78-83 | the walk through `parent` collects the positions `Walk` describes, and it ends because costs are positive |
| Knapsack.WalkCost | task_6_greedy.py:78-83 | the walk from budget b spends at most b |
| Knapsack.ByName | task_6_greedy.py:86-89 | with distinct names, summing over the chosen names gives the totals of the chosen positions |
| Knapsack.DynamicProgramming | task_6_greedy.py:47-91 | a negative budget gives `EmptyBudgetRange`; otherwise the result describes the reversed walk from the first best budget, and its cost is at most `best_b`, which is at most the budget |
| Knapsack.RepeatedItem | task_6_greedy.py:62-83 | with items a (1, 1) and b (1, 10) and budget 2, the walk returns b twice, giving 20 calories where the best subset has 11 |
| Knapsack.OptimalChoice | task_6_greedy.py:47-91 | the intended reconstruction: the choice is within the budget, its calories are the optimum, and no item is chosen twice |
| HeapTree.Node.constructor | task_4_heap.py:10-15 | a new node holds its key and colour and has no children |
| HeapTree.HeapToTree | task_4_heap.py:36-49 | an empty array gives no root; otherwise there are n distinct fresh nodes, node i holds element i with the default colour, node i's children are nodes 2i+1 and 2i+2 where they exist, and the root is node 0 |
| HeapTree.MakeNodes | task_4_heap.py:41 | one fresh unlinked node per element, holding it |
| HeapTree.LinkChildren | task_4_heap.py:42-48 | every node's links follow the heap layout, and keys and colours are untouched |
| BinaryTree.CollectNodesBfs | task_5_binary_tree.py:9-23 | no root gives `[]`; otherwise the output is the level order of the tree, begins with the root, and is the root followed by what the visits enqueued, in order |
| BinaryTree.BfsPermutes | task_5_binary_tree.py:16-22 | the walk visits every node of the queued trees, each once per occurrence |
| BinaryTree.BfsOnce | task_5_binary_tree.py:16-22 | in a tree without shared nodes each node is visited exactly once, and there are as many visits as nodes |
| BinaryTree.ChildrenFollow | task_5_binary_tree.py:19-22 | in the output, a node's left child comes right where the earlier enqueued nodes end, its right child right after that, and both after the node |
| BinaryTree.HeapRoundTrip | task_4_heap.py:42-48 | the walk over a tree linked in heap layout visits the nodes in array order |
| BinaryTree.TreeWalk | task_4_heap.py:36-49 | the tree `heap_to_tree` builds is described by its heap shape, and its level order is the array of nodes |
| BinaryTree.LevelOrderKeys | task_5_binary_tree.py:9-23 | collecting the tree built from an array gives the array's keys back, in order |

## Left out

- `main` printing, the demos under `__main__`, and every `print` are left out. `Dijkstra.Sample` keeps the values `main` computes.
- Plotting and animation are left out: `add_edges`, `draw_tree`, `draw_tree_step`, `visualize_bfs`, `visualize_dfs`, `gradient_colors` and `lerp`. They are graphics and floating-point layout.
- The node identifier `uuid.uuid4()` is left out because it is a foreign call. Nodes are identified by object reference.
- The Pythagoras tree and Monte Carlo programs are not part of this model. They are turtle graphics, random numbers and float probabilities.
- Dijkstra.Run: distances are whole numbers with an explicit `Inf` rather than floats with `math.inf`. Weights are integers, so float rounding is not modelled.
- Dijkstra.Run: the frontier is a multiset and a pop yields any entry of least distance. The model leaves `heapq`'s tie-break on the vertex open, and every property holds for any such choice.
- Dijkstra.Run: requires the start and every edge target to be keys of the graph (`Closed`), and a `KeyError` is not modelled as an outcome. `Closed` is stricter than what the source needs: a dangling edge out of a vertex that is never scanned is never read, and on such a graph the source returns normally.
- Dijkstra.RestorePath: requires the target to be a key and a ghost rank under which every predecessor link of the whole table leads to a key and descends. `Run` returns such a rank. This is stricter than what the source needs: the walk reads only the target's own chain, so a table with a cycle or a dangling link elsewhere, on which the source returns normally, is excluded too. A cycle on the target's chain, on which the source loops forever, is excluded rather than modelled.
- Knapsack.Greedy: requires positive costs, because a zero cost raises `ZeroDivisionError`. Negative costs are excluded too, although the source runs normally on them: the comparison `calories * cost' >= calories' * cost` agrees with comparing the quotients only when the two costs have the same sign, so the model does not describe the order the source sorts such items in. The ratio order compares `calories * cost'` with `calories' * cost` exactly, so ties that floating-point division would break differently are not modelled.
- Knapsack.DynamicProgramming: requires positive costs. A zero-cost item with positive calories makes the walk back loop forever. A zero-cost item with no positive calories leaves the table alone, and there `PositiveCosts` is stricter than the source needs. A negative cost `c` raises `IndexError` at `dp[b - c]`, since `b - c` then exceeds the budget. Neither the endless walk nor the `IndexError` is modelled. It also requires distinct names, since the totals are summed by name; a dictionary's keys are distinct anyway.
- Knapsack.DynamicProgramming: a negative budget gives `EmptyBudgetRange`, the model of the `ValueError` that `max` raises on an empty range.
- Knapsack.DynamicProgramming: does not claim that the chosen items are distinct or that their calories equal `dp[best_b]`, because the code as written does not ensure either (see Findings).
- LinkedList.SplitMiddle, LinkedList.MergeSortedLists, LinkedList.MergeSort: require null-terminated chains without cycles (`IsList`), and `MergeSortedLists` requires its two inputs to share no node. On a cycle `split_middle` loops forever, while `merge_sorted_lists` returns normally on some cyclic inputs; that behaviour is not modelled. Every caller in the source meets both conditions.
- LinkedList.MergeSort: stability of the whole sort is not stated. Only the single merge is proved stable (`LinkedList.MergeStable`).
- BinaryTree.CollectNodesBfs: requires a ghost `Shape` describing the tree. A tree with a cycle, on which the walk does not end, is excluded. A shared subtree is visited once per occurrence.
- BinaryTree.LevelOrderKeys: is a composition of `heap_to_tree` and `collect_nodes_bfs`, not a function of the source.

## Findings

| source | as written | input that shows it | evidently intended | confidence | as-written member | corrected member |
|---|---|---|---|---|---|---|
| task_6_greedy.py:62-83 | the reconstruction follows the one-dimensional `parent` row. That row records the last item that improved each budget, over all items, so the walk can meet the same item twice | items a (cost 1, calories 1) and b (cost 1, calories 10), budget 2: `parent[2]` and `parent[1]` both name b, so the result is ["b", "b"], cost 2, calories 20 | a 0/1 choice: each item at most once, within the budget, with the optimal calories (here a and b, 11 calories) | not executed | Knapsack.RepeatedItem | Knapsack.OptimalChoice |
