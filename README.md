# A* path search on a square grid, modelled in Dafny

The program finds a cheap path through an n×n map. The map is stored row-major
in one flat buffer, one byte per cell. A byte gives the cost of entering the
cell, or marks the cell as the start (`O`), the goal (`X`) or a wall (`#`).
The search moves in four directions, uses the Manhattan distance as its
heuristic, and writes the cost it found together with the map, with the path
marked `*`.

The repository has two versions of the same engine, and both are modelled:

- `a-star.c` keeps its open set in a binary heap and in a parallel flag table.
  `init_map` scans and validates the map. `a_star` runs the search over the
  g-score, f-score and came_from tables and the openset and closedset flags.
  `reconstruct_path` walks the came_from chain in a loop. Here the map struct
  is the class `HeapSearch.Map`, with one array field per table, and the heap
  is the class `Queue.Heap`.
- `a-star.h` keeps its open set in a linked list. `load` filters the bytes of
  the map file. `lowest_f_score` scans the list. `a_star` runs the same
  relaxation. `reconstruct_path` is recursive. Here the buffers are the class
  `ListSearch.Buffers`, and the list is a `seq<int>` that the methods return.

Modules:

- `Grid` (grid.dfy): cells, rows and columns, `neighbor_nodes`, `h_cost`, and
  routes through neighbouring cells.
- `Sums` (sums.dfy): sums, distinct sequences, and the termination measure.
- `Chains` (chains.dfy): predecessor chains in came_from and what they cost.
- `Frontier` (frontier.dfy): what both search loops keep true, stated on the
  tables as values (`Tables`, `SearchInv`). Each step of the loop is one
  function on those values (`Closed`, `Improved`, and for a whole expansion
  `Expanded`), and lemmas show what the step changes and that it keeps the
  invariant. The array methods of both engines are proved
  equal to these functions.
- `Queue` (queue.dfy): the priority queue and the open flags that mirror it.
- `HeapSearch` (heap_search.dfy): the `a-star.c` engine.
- `ListSearch` (list_search.dfy): the `a-star.h` engine.

What is proved:

- Both searches terminate. The measure is, in lexicographic order: the number
  of cells never seen, the sum of the seen cells' g-scores, and the size of
  the open set.
- When a search stops at the goal, came_from leads from the goal back to a
  start cell. That chain is a route through neighbouring cells that the
  engine may enter, it visits no cell twice, and its cost is at most the
  goal's g-score.
- When the open set runs empty, no route from any start cell reaches the
  goal.
- In `a-star.c`, the open flags mirror the heap, so the heap never holds a
  cell twice and never outgrows its n*n entries.
- In `a-star.h`, every cell may be entered and the grid is connected, so with
  the corrected neighbour rule the goal is always reachable. With
  neighbor_nodes as written it is not: a goal in row 0 is never reached from
  start cells that all lie below row 0 (see Findings).

## Model

| member | source | states |
|---|---|---|
| Grid.NeighborNodes | a-star.c:228-233 | there are four slots, and each is OUT_OF_BOUNDS or a cell of the map other than `current` |
| Grid.NeighborSlots | a-star.c:228-233 | up and down keep the column and move one row, left and right keep the row and move one column, and a slot is OUT_OF_BOUNDS exactly when that move leaves the map |
| Grid.AdjacentIffOneStep | a-star.c:228-233 | the cells neighbor_nodes yields are exactly the cells of the map at Manhattan distance 1 from `current` |
| Grid.AdjacentSymmetric | a-star.c:228-233 | if b is a neighbour of a, then a is a neighbour of b |
| Grid.CellCoords | a-star.c:238 | a cell's row `i / n` and column `i % n` lie in [0, n) and give the cell back as row*n + col |
| Grid.CoordsCell | a-star.c:238 | a row and a column in [0, n) name exactly one cell, whose row and column they are |
| Grid.HCostZeroIffGoal | a-star.c:237-238 | the Manhattan heuristic (a-star.h:235-236 computes the same one) is zero exactly at the goal |
| Grid.HCostStep | a-star.c:237-238 | the heuristic differs by at most 1 between a cell and any neighbour neighbor_nodes yields for it |
| Grid.HCostBound | a-star.c:237-238 | HCost is the formula of h_cost at a-star.c:237-238 (a-star.h:235-236 computes the same one): the row distance plus the column distance. It is the same measured from either end, and at most 2(n-1) between two cells of the map |
| Grid.GridRoute | a-star.c:228-233 | any two cells of the map are joined by a route of neighbouring cells |
| Grid.RouteStaysInRegion | a-star.c:43-61 | a route whose far end lies in a set of cells that holds every passable neighbour of its cells lies wholly inside that set |
| Sums.DistinctBelow | a-star.c:130-131 | distinct cells of [0, n) that miss some cell number fewer than n, so the heap has room |
| Sums.SeeingLowersUnseen | a-star.c:56-58 | queueing a cell never seen before lowers the count of unseen cells |
| Sums.LoweringLowersScore | a-star.c:52-54 | lowering one seen cell's g-score strictly, and no other cell's, lowers the sum of g-scores |
| Chains.ChainNoRepeat | a-star.c:215-219 | a came_from chain never visits a cell twice |
| Chains.ChainDistinct | a-star.c:215-219 | the cells of a came_from chain are distinct, so the walk of reconstruct_path ends |
| Chains.ChainUnique | a-star.c:215-218 | came_from fixes the chain from a cell: any two chains from the same cell are equal |
| Chains.ChainFromRank | a-star.c:215-219 | when every recorded predecessor has a smaller non-negative rank, following came_from from any cell reaches a cell with no predecessor |
| Chains.ChainCostBound | a-star.c:53-54 | when g at the predecessor plus the cell's cost is at most g at each cell, a chain costs at most g at its first cell minus g at its last |
| Chains.ChainIsRoute | a-star.c:45-53 | when every recorded predecessor is a neighbour and every cell that has one is passable, a chain is a route |
| Chains.ChainCostAtLeast | a-star.c:211-218 | the sum reconstruct_path returns over a chain (ChainCost), for a chain of k cells that each cost at least 1, is at least k-1 |
| Frontier.LastIndexOf | a-star.c:105-111 | NOT_SET exactly when the byte is absent, and otherwise the index of its last occurrence, which is what the scan leaves in start and goal |
| Frontier.Improves | a-star.c:45-52 | a neighbour passes the test exactly when it is in the map, may be entered, and was never seen or the path through `current` is strictly cheaper than its g-score; a-star.h:113-118 applies the same test |
| Frontier.Improved | a-star.c:53-58 | after the update the neighbour is seen, no seen cell stops being seen, and the closed set is unchanged |
| Frontier.Closed | a-star.c:40-41 | the popped cell leaves the open set and joins the closed set; when it was open, the seen cells stay the same |
| Frontier.RelaxedSlotsChanges | a-star.c:43-61 | relaxing slots changes no cost, passability, start flag or closed flag, never removes an open cell and leaves `current` alone; every other cell keeps its predecessor, g-score and open flag, or is a neighbour of `current` with `current` as predecessor, the g-score of the path through it, and a place in the open set; the cells that join the open set are exactly those open now and not before |
| Frontier.ExpandedChanges | a-star.c:40-61 | one expansion closes `current` and nothing else and takes it out of the open set; any other cell is unchanged or is a neighbour of `current` with `current` as predecessor, the g-score of the path through it, and a place in the open set |
| Frontier.RescoredSlotsChanges | a-star.c:55 | after the passes every f-score is unchanged or belongs to a neighbour of `current` and is its new g-score plus its heuristic |
| Frontier.RelaxedKeeps | a-star.c:45-60 | one pass over a slot of the closed cell keeps the invariant and deals with one more slot; either the test failed and nothing changed, or the measure went down |
| Frontier.RelaxedSlotsKeep | a-star.c:43-61 | relaxing the slots of the closed cell keeps the invariant and deals with those slots; either nothing changed and no cell joined the open set, or the measure went down |
| Frontier.InitialInv | a-star.c:31-34 | the tables as set up (no predecessors, nothing closed, exactly the start cells open, g = 0 at the chosen start) satisfy the loop invariant |
| Frontier.CloseKeeps | a-star.c:40-41 | closing the popped cell keeps the invariant, with that cell marked as being expanded, and changes no cell's seen status |
| Frontier.ImproveKeeps | a-star.c:48-59 | recording the better path to a neighbour keeps the invariant and marks the slot dealt with; seen cells stay seen with g never higher; the measure goes down |
| Frontier.ImproveScores | a-star.c:48-54 | after an improvement, g-scores are still non-negative, and the start keeps g = 0 and no predecessor |
| Frontier.ImproveChain | a-star.c:53-54 | after an improvement, every predecessor is still a closed neighbour, and g at the predecessor plus the cell's cost is at most g at the cell |
| Frontier.ImproveCover | a-star.c:52-59 | after an improvement, the goal is still neither closed nor a start cell, every seen cell other than a start cell has a predecessor, and every other closed cell has its four slots dealt with |
| Frontier.ImproveMeasure | a-star.c:52-55 | no seen cell's g-score rises, and either a new cell is seen or the sum of the seen g-scores drops strictly |
| Frontier.ExpandComplete | a-star.c:43-61 | once all four slots of the expanded cell are dealt with, the invariant holds with no cell being expanded |
| Frontier.GoalChain | a-star.c:37-38 | once the goal is seen, came_from leads from it to a start cell, along a route with no repeated cell that costs at most g[goal] |
| Frontier.NoRoute | a-star.c:62-63 | with the open set empty, no route through enterable cells leads from a start cell to the goal |
| Queue.LeastExists | a-star.c:35 | a non-empty queue has an entry of least priority |
| Queue.CellsRemove | a-star.c:35 | taking one entry out of a queue of distinct cells leaves exactly the other cells, still distinct |
| Queue.Heap.constructor | a-star.c:126-131 | an empty queue with room for `size` entries |
| Queue.Heap.Push | a-star.c:57 | the entry is added to the queue |
| Queue.Heap.Pop | a-star.c:35 | an entry of least priority is removed and its cell returned, and every other entry stays |
| Queue.MirrorsPush | a-star.c:56-59 | queueing and flagging a cell that is not flagged keeps the flags mirroring the queue, and the queue had fewer entries than cells |
| Queue.MirrorsPop | a-star.c:35-40 | after pop, the popped cell is still flagged IN_OPENSET until it is closed, and the flags still mirror the rest of the queue |
| HeapSearch.Costs | a-star.c:48 | the cost of a cell is its byte, so every cell that is not NUL costs at least 1 |
| HeapSearch.Passable | a-star.c:45-46 | a cell may be entered exactly when it is not a wall |
| HeapSearch.Marked | a-star.c:214-217 | exactly the cells strictly between the two ends of the chain become `*`; every other cell keeps its byte |
| HeapSearch.PushedAt | a-star.c:56-58 | the queue gains the neighbour exactly when it passes the test and was not open |
| HeapSearch.Pushed | a-star.c:43-61 | the cells queued over the slots are exactly those that join the open set, in slot order |
| HeapSearch.StartNodesCells | a-star.c:109-112 | the entries the scan queues (StartNodes) hold every START cell exactly once, each with priority 0, and nothing else |
| HeapSearch.StartNodesNext | a-star.c:105-112 | scanning one more cell flags and queues it if it is START, and updates the last START and GOAL index |
| HeapSearch.Map.constructor | a-star.c:80-88 | the tables have size*size entries and hold the cell line; the flags are zero-filled; the queue is empty; start and goal are NOT_SET |
| HeapSearch.Map.Scan | a-star.c:95-114 | over the size*size cells, every cell gets no predecessor and g = f = INF; goal and start are the last GOAL and START index; exactly the START cells are queued with priority 0 and flagged IN_OPENSET |
| HeapSearch.Map.ScanCell | a-star.c:101-113 | one scanned cell: its scores are reset, and a GOAL cell becomes the goal; a START cell becomes the start, is queued and is flagged |
| HeapSearch.Map.Search | a-star.c:31-62 | the loop terminates; if the goal is popped, came_from leads from it to a START cell along a passable route with no repeated cell costing at most g[goal]; if the queue runs empty, no START cell can reach the goal |
| HeapSearch.Map.Next | a-star.c:35 | pop takes out a queued entry of least priority and returns its cell, which lies in the map; every other entry stays, in order; the cell keeps its flag, and no table changes |
| HeapSearch.Map.FoundChain | a-star.c:37-38 | when the goal is popped, the chain back to a START cell exists |
| HeapSearch.Map.Exhausted | a-star.c:62-63 | when the queue is empty, the goal cannot be reached |
| HeapSearch.Map.SetStart | a-star.c:31-32 | g[start] becomes 0 and f[start] becomes the heuristic of start; nothing else changes |
| HeapSearch.Map.Begin | a-star.c:31-34 | the tables left by init_map and a-star.c:31-32 satisfy the loop invariant, and the flags mirror the queue |
| HeapSearch.Map.Expand | a-star.c:40-61 | the tables become Frontier.Expanded of the old ones; `current` alone becomes CLOSED; f is rescored at the neighbours that pass; the queue gains exactly the cells that join the open set, with their f-scores, in slot order; the invariant holds again and the measure has not risen |
| HeapSearch.Map.RelaxAll | a-star.c:43-61 | the tables become Frontier.RelaxedSlots over the four slots of the old ones; f is rescored at the neighbours that pass; the queue gains the entries of Pushed; every slot is dealt with, the invariant holds, and the measure has not risen |
| HeapSearch.Map.RelaxSlots | a-star.c:43-61 | the tables become Frontier.RelaxedSlots over the four slots of the old ones, f is Frontier.RescoredSlots, the queue gains the entries of Pushed, and the flags still mirror the queue |
| HeapSearch.Map.Relaxed4 | a-star.c:43-61 | tables reached by relaxing all four slots of the closed cell satisfy the invariant with every slot dealt with, and when the queue grew by the cells that joined the open set, the measure is no higher than before the slots |
| HeapSearch.Map.Close | a-star.c:40-41 | the popped cell gets flag NOT_IN_OPENSET and CLOSED; the tables become Frontier.Closed of the old ones |
| HeapSearch.Map.Relax | a-star.c:45-60 | the tables become Frontier.Relaxed of the old ones: Improved when the neighbour passes the test (in the map, not a wall, not a closed cell without a strict gain, not open or strictly cheaper), unchanged otherwise; f changes only at a neighbour that passes; the queue gains the neighbour with its f-score exactly when it passes and was not open; the flags still mirror the queue |
| HeapSearch.Map.Update | a-star.c:53-59 | a neighbour that passes the test gets `current` as predecessor and the new g and f, and is queued with its f-score and flagged only if it was not open; the flags still mirror the queue |
| HeapSearch.Map.Admit | a-star.c:56-59 | the neighbour ends up flagged IN_OPENSET, and it is queued with its f-score exactly when it was not flagged before; the flags still mirror the queue |
| HeapSearch.Map.Record | a-star.c:53-55 | came_from, g and f change at the neighbour only, and f is g plus the heuristic |
| HeapSearch.Map.Enqueue | a-star.c:56-59 | the neighbour is queued with its f-score and flagged IN_OPENSET; the queue had room |
| HeapSearch.Map.ReconstructPath | a-star.c:211-221 | the sum is the cost of every cell of the chain but the last, and exactly the cells strictly between the goal and the last cell become `*` |
| HeapSearch.ScanAsWrittenOverruns | a-star.c:95 | the scan's guard as written admits i = size*size, which is one past the end of the size*size tables |
| HeapSearch.InitMap | a-star.c:69-121 | a size outside [4, 15000] is rejected; a map without START or GOAL is rejected; otherwise start and goal are the last START and GOAL cells, and the tables are as the scan leaves them |
| HeapSearch.ReportedRoute | a-star.c:45-54 | a chain reported on the tables is a route in the map from the goal to a START cell that avoids walls |
| HeapSearch.ReportedNoRoute | a-star.c:62-63 | unreachability on the tables is unreachability in the map |
| HeapSearch.Run | a-star.c:23-64 | a bad size gives InputErr; a missing START or GOAL gives InputErr; otherwise the result is either a route from the goal to a START cell, with its cost and the map with `*` marks, or the unchanged map when no START cell can reach the goal |
| ListSearch.DistBetween | a-star.h:194-204 | the cost is 1 exactly for `X` and `V`, 2 exactly for `W`, and INFINITY (10000) for every other byte |
| ListSearch.Filter | a-star.h:141-161 | load keeps only accepted bytes, in order, and never more bytes than it read |
| ListSearch.FilterNext | a-star.h:142-160 | reading one more byte appends it to the stored cells exactly when it is accepted |
| ListSearch.FilterPrefix | a-star.h:141-161 | a prefix of the file never holds more cells than the whole file |
| ListSearch.FilterAppend | a-star.h:141-161 | filtering two pieces of the file is filtering each piece |
| ListSearch.FilterAccepted | a-star.h:143 | a file made only of accepted bytes is stored unchanged |
| ListSearch.FilterIdempotent | a-star.h:143 | filtering twice is the same as filtering once |
| ListSearch.FilterContents | a-star.h:143 | a byte is among the stored cells exactly when it is in the file and accepted |
| ListSearch.StartListCells | a-star.h:155-157 | the open list load builds (StartList) holds each START cell exactly once, and nothing else |
| ListSearch.LoadNext | a-star.h:151-158 | one more cell puts its index at the head of the list if it is START, and updates the last GOAL and START index |
| ListSearch.LoadSlotAsWritten | a-star.h:140-160 | the byte read as number j is written at the index that counts the accepted bytes before it, which is at most j |
| ListSearch.LoadAsWrittenOverruns | a-star.h:141-142 | when a file of n*n cells ends with a newline, load as written stores that newline at index n*n of the n*n-byte map_in |
| ListSearch.NeighborsAsWrittenLeaveMap | a-star.h:217-226 | neighbor_nodes as written yields n*n as the right slot of the last cell and as the down slot of the first cell of the last row; n*n is not a cell |
| ListSearch.NeighborsAsWrittenWrap | a-star.h:212-213 | neighbor_nodes as written yields the last cell of row 1 as the left slot of the first cell of row 2, and those cells are not neighbours |
| ListSearch.NeighborsAsWrittenMiss | a-star.h:207-216 | neighbor_nodes as written yields OUT_OF_BOUNDS for the cell above cell n and for the cell left of cell 1, though both are neighbours |
| ListSearch.NeighborNodesAsWritten | a-star.h:206-227 | every slot that is not OUT_OF_BOUNDS is at most n*n, one past the last cell, and lies outside row 0 unless it is the right slot |
| ListSearch.WalkAsWrittenAvoidsRowZero | a-star.h:207-216 | a walk along neighbor_nodes as written that starts outside row 0 never enters row 0 |
| ListSearch.RowZeroGoalAsWritten | a-star.h:207-216 | on a 4×4 map cell 1 is a neighbour of cell 5, yet no walk along neighbor_nodes as written leads from 5 to 1 |
| ListSearch.DistCosts | a-star.h:114 | every cell costs at least 1 |
| ListSearch.Enterable | a-star.h:113 | every cell may be entered: only OUT_OF_BOUNDS slots are skipped |
| ListSearch.Remove | a-star.h:108 | removeNode takes out exactly one node holding the cell if there is one (the multiset of cells loses one copy of it), so the list shrinks by one exactly then and gains nothing |
| ListSearch.RemoveDistinct | a-star.h:108 | on a list of distinct cells, removeNode takes out exactly that cell and the list stays distinct |
| ListSearch.Heads | a-star.h:122-123 | putting cells one by one at the head of the list gives a list whose length is the sum of both, holding exactly the cells of both |
| ListSearch.FirstLowestUnique | a-star.h:247-258 | at most one position is the first of least f-score |
| ListSearch.LowestFScore | a-star.h:247-258 | on a non-empty list, the result is the first cell in list order whose f-score is at most every other's |
| ListSearch.LoadedNext | a-star.h:142-160 | storing one more accepted byte extends what load has stored by one cell |
| ListSearch.Buffers.constructor | a-star.h:61-78 | the six buffers have n*n entries each, and closedset is zero-filled (OPEN) |
| ListSearch.Buffers.Load | a-star.h:137-166 | the accepted bytes go to map_in and map_out from index 0, each with no predecessor and scores 10000000, and the entries past them stay unchanged; goal and start are the last GOAL and START index; the open list holds the START cells, newest first |
| ListSearch.Buffers.Store | a-star.h:142-149 | one accepted byte: the cell gets the byte in both maps, no predecessor, and scores 10000000 |
| ListSearch.Buffers.LoadedMap | a-star.h:141-161 | for a file of exactly n*n cells with START and GOAL, map_in and map_out hold its cells, every predecessor is unset, nothing is closed, and the list holds the START cells |
| ListSearch.Buffers.ReconstructPath | a-star.h:176-187 | the sum is dist_between over every cell of the chain but the last; exactly those cells, except GOAL cells, become `*` in map_out |
| ListSearch.Starred | a-star.h:176-187 | exactly the cells of the chain but its last, except GOAL cells, become `*`; every other cell keeps its byte |
| ListSearch.Buffers.Search | a-star.h:83-127 | the loop terminates; if the goal is taken, came_from leads from it to a START cell along a route with no repeated cell costing at most g[goal]; if the open list empties, no START cell can reach the goal |
| ListSearch.Buffers.Begin | a-star.h:83-87 | the buffers left by load and a-star.h:83-84 satisfy the loop invariant |
| ListSearch.Buffers.FoundChain | a-star.h:88-89 | when the goal is the cell taken, the chain back to a START cell exists |
| ListSearch.Buffers.Exhausted | a-star.h:87 | when the open list is empty, the goal cannot be reached |
| ListSearch.Buffers.Expand | a-star.h:108-126 | the tables become Frontier.Expanded of the old ones; `current` alone becomes CLOSED; f is rescored at the neighbours that pass; the list is the old one without `current`, with the cells that join it put at its head in slot order; the invariant holds and the measure falls below its value with that cell on the list |
| ListSearch.Buffers.RelaxAll | a-star.h:111-126 | the tables become Frontier.RelaxedSlots over the four slots of the old ones; f is rescored at the neighbours that pass; the cells that join the list are put at its head in slot order; every slot is dealt with, the invariant holds, and the measure has not risen |
| ListSearch.Buffers.Relaxed4 | a-star.h:111-126 | tables reached by relaxing all four slots of the closed cell satisfy the invariant with every slot dealt with, and when the list grew by the cells that joined it, the measure is no higher than before the slots |
| ListSearch.Buffers.Close | a-star.h:108-109 | the cell leaves the list, which shrinks by one and stays distinct, and becomes CLOSED; the tables become Frontier.Closed of the old ones |
| ListSearch.Buffers.Relax | a-star.h:113-125 | the tables become Frontier.Relaxed of the old ones: Improved when the neighbour passes the test (in the map, not a closed cell without a strict gain, not listed or strictly cheaper), unchanged otherwise; f changes only at a neighbour that passes; the neighbour goes at the head of the list exactly when it passes and was not on it |
| ListSearch.Buffers.Improve | a-star.h:118-124 | the neighbour gets `current` as predecessor and the new g and f, and goes at the head of the list only if findNode did not find it |
| ListSearch.ReportedRoute | a-star.h:88-94 | a chain reported on the tables is a route in the map from the goal to a START cell |
| ListSearch.ReportedNoRoute | a-star.h:87 | unreachability on the tables is unreachability in the map |
| ListSearch.GoalAlwaysReachable | a-star.h:87-127 | every cell may be entered and the map, with the corrected neighbour rule, is connected, so some START cell has a route to the goal; a search on that rule never runs out of open cells first |
| ListSearch.Run | a-star.h:28-129 | for a file of n*n cells with START and GOAL, the result is a route from the goal to a START cell, with the cost reconstruct_path writes and the map with `*` marks; NotFound only when there is no route |

## Left out

- File and console I/O is not modelled. This covers fopen, fscanf, fgets, the output loop, fprintf and fputs, printf, and printerr. Both engines take the map as a `seq<char>` and return their result as a value. The error code for a file that cannot be read, and the return value of write_map, are not modelled.
- Allocation is not modelled. This covers alloc_map, free_map and the malloc checks of `a-star.h`. Allocation never fails here, so ALLOC_ERR and the negative codes of `a-star.h` never occur.
- The bodies of push and pop in heap.h are not part of this model. The queue is its sequence of entries, and pop removes any entry of least priority. Priorities are not updated when a queued cell improves, so an entry's priority can be stale, as in the source. Nothing proved depends on the order of pops.
- The bodies of addHead, removeNode and findNode in list.h are not part of this model. The open list is a `seq<int>`: addHead puts the cell at the front, removeNode removes the first node holding the cell, and findNode is membership.
- Several constants of `a-star.c` come from a header that is not part of this model: GOAL, START, WALL, INF, NOT_SET, IN_OPENSET and CLOSED. The model gives them the `a-star.h` alphabet and the meaning that calloc's zero fill has in the source's comments.
- Machine integers, overflow and the signedness of `char` are not modelled. Scores are mathematical integers.
- HeapSearch.Run: it requires the cell line to hold exactly size*size bytes, none of them NUL. fgets can return a shorter line, and a NUL byte would cost 0; neither is modelled.
- HeapSearch.InitMap: the `start == goal` test at a-star.c:116 is not a separate error case. Both are only set on cells holding different bytes, so the test cannot fire once both are set.
- ListSearch.Run: it requires the file to hold exactly n*n accepted bytes, including a START and a GOAL cell. The source checks none of this. With fewer cells, or with no START or GOAL, it searches buffers that were never written, and with more cells it writes past them.
- ListSearch.Buffers.Load: the corrected load writes only accepted bytes. As written, load also writes each rejected byte into the next free slot, where the next accepted byte overwrites it (see Findings). The final failed read at end of file is not modelled. Where the file has no START or GOAL cell, the model sets start or goal to NOT_SET; this is the model's own choice, since a-star.h leaves both uninitialised (a-star.h:30).
- ListSearch.Buffers.Search: the search uses the corrected neighbour rule, Grid.NeighborNodes, not the one of a-star.h:206-227, which can index past the tables (see Findings).
- ListSearch.GoalAlwaysReachable: it holds for the corrected neighbour rule, Grid.NeighborNodes, only. With neighbor_nodes as written, a GOAL cell in row 0 is never reached from START cells that all lie below row 0, so the list can run empty first (see Findings).
- Neither engine is proved to return a cheapest path. The model proves only that the path is a real route, that its cost is what reconstruct_path reports, and that this cost is at most the goal's g-score.

## Findings

| source | as written | input that shows it | evidently intended | confidence | as-written member | corrected member |
|---|---|---|---|---|---|---|
| a-star.c:95 | the scan runs while `i < size*size + 1` and writes came_from, g_score and f_score at index i | any accepted map: at i = size*size it writes one past the end of the three size*size tables (a-star.c:137-152) | the scan stops at i = size*size | high, not executed | HeapSearch.ScanAsWrittenOverruns | HeapSearch.Map.Scan |
| a-star.h:217-226 | right is current+1 when current+1 <= n*n, and down is current+n when current+n <= n*n | current = n*n-1 yields right = n*n; current = n*n-n yields down = n*n; both index past the n*n tables | the tests are `< n*n` | high, not executed | ListSearch.NeighborsAsWrittenLeaveMap | Grid.AdjacentIffOneStep |
| a-star.h:212-213 | left is current-1 when current-1 >= n, with no row test | n = 3, current = 6 yields 5, the last cell of the row above | left stays in the same row | high, not executed | ListSearch.NeighborsAsWrittenWrap | Grid.NeighborSlots |
| a-star.h:207-216 | up needs current-n >= n, and left needs current-1 >= n | n = 2: current = 2 gets no up neighbour though cell 0 is above it; current = 1 gets no left neighbour though cell 0 is left of it | up needs current-n >= 0; left needs the same row | high, not executed | ListSearch.NeighborsAsWrittenMiss | Grid.AdjacentIffOneStep |
| a-star.h:141-142 | fscanf stores every byte read into map_in[i] before the byte is tested | a file of n*n cells followed by a newline: the newline is stored at map_in[n*n], past the n*n bytes allocated | only accepted bytes are stored | high, not executed | ListSearch.LoadAsWrittenOverruns | ListSearch.Buffers.Load |
| a-star.h:207-216 | up is yielded only when current-n >= n, and left only when current-1 >= n, so no cell outside row 0 gets a slot in row 0 | n = 4, GOAL at cell 1 and the only START at cell 5, directly below it: no walk along neighbor_nodes as written leads from cell 5 to cell 1, so the goal is never taken | up needs current-n >= 0, so the goal above the start is reached in one step | high, not executed | ListSearch.RowZeroGoalAsWritten | ListSearch.GoalAlwaysReachable |
