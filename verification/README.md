# Verified models of the algorithm and protocol recipes

Dafny models of the hardest recipes of the repository, with proofs of what each of them promises. `dafny verify dfyconfig.toml`
checks everything. One module stands for one source file or one of its parts; a class of the source is a class here, a
loop is a loop, and threads are a transition system whose steps are the sections under a lock.

| files | what they model | main result |
|---|---|---|
| IntervalSupply, EarliestEndScan, GiftPoints, WorkerScheduling | gift points and worker scheduling: demands on days, divisible supplies on intervals | both solvers are exact and agree; feasibility is Hall's condition |
| BipartiteMatching | maximum bipartite matching with flags refreshed after successes only | a cover of equal size exists |
| RingAllReduce | ring all-reduce over FIFO queues and a fence | every interleaving ends with the column sums everywhere |
| TreeReduce, FencedTreeReduce | tree reduction: sequential, by messages, and on shared memory with a fence | every interleaving ends with the total in values[0]; no data race |
| Dijkstra, ModifiedGraphEdges | Dijkstra from seeds with incremental runs; filling in edge weights to hit a distance | the answer is right, and empty exactly when there is none; for a target of 0, exactly when that holds |
| Tarjan, Kosaraju, ForwardStar, MaxVisits | strongly connected components, the edge index under them, and the longest walk over the condensation | exactly the components, topologically ordered; the best walk |
| ShortestPalindrome | failure function and shortest palindrome that ends in a string | shortest, for every string |
| DiningPhilosophers | philosophers with a mutex and semaphores | neighbours never eat together, no lost wake-up, no deadlock |
| FloydWarshall | all shortest paths, edges added in place, path recovery | exact matrices; recovered paths end and weigh the distance |
| CartesianTree | sum of minimum times sum over all subarrays | equals the sum by definition, modulo 10^9 + 7 |
| FenwickTree, Fancy, SegmentTreeFancy | two implementations of append, add-to-all, multiply-all, read | both refine a plain list |
| BookMyShow | segment tree of seats with stale children under full nodes | refines an array of row counts |
| PiecewiseMax | upper envelope of lines in a deque, maximal damage | the maximum over all lines, and over all pairs |
| GroupCommit | leader and followers committing in groups | every datum in exactly one commit, merged in queue order, in every interleaving, and every run ends |
| MinMaxCounters | cross-linked counters with constant-time extremes | refines a map from keys to counts |
| Crawler | a scheduler with an overall and a per-domain limit | every task yields one result, for any order of completion; the tasks of a domain start in turn |
| ConnectFour | game search with a table under packed keys | the plain minimax value |
| Sudoku | backtracking over digit masks that are parities | finds a solution of a consistent board exactly when there is one; the exact outcome on every other board |
| Calculator | tokenizer and stack machine for sums with parentheses | evaluates every written expression tree |
| TopK, LfuCache | the k least elements with lazy deletion; a least-frequently-used cache | refine a collection, and a table of uses and times; exactly when lazy deletion loses an element |
| Sums, Sorting, FiniteSets, Arithmetic, Modular, Walks, Reachability, Wrappers | sums, sorted copies, set sizes, remainders, weighted walks, paths and components | shared definitions and their laws |

How the main proofs go:

- Greedy scheduling: the loop invariant is not "what was assigned is optimal" but "whatever later demands come, what is left is
  feasible exactly when the input was" (`EarliestEndScan.Residual`), stated through Hall's condition, which a spending step keeps in
  both directions.
- Matching: right vertices flagged by failed searches are "dead"; they stay dead through later successes although the flags are
  then refreshed, and at the end they are half of a vertex cover.
- Protocols: one invariant per kind of state (values, queues, fence), a step lemma for each, then an induction over runs. In
  the reductions deadlock freedom looks at the thread that is furthest behind, and a progress measure bounds every run.
- Tree reduction with a fence: a counter of a round is the number of threads that have arrived, and whoever has passed found it
  complete; hence pending additions of different rounds never meet in a cell.
- Fancy: maps do not commute, but an update of the prefix touches, on the climb from any point, only the last node that has ever
  been touched, so composing from the bottom up is composing in the order of the updates.
- Filling in weights: a walk that uses the new edge is followed step by step with two lower bounds, one per side of the edge.
- Floyd-Warshall: a detour that helps a pair helps every node on the way to it, so a hop count can be carried along and path
  recovery ends even over cycles of weight 0.
- Strongly connected components: low links are taken from the neighbour's low link, so they only point at some older node of the
  same component; that is enough to know a root when it is left.

Where code and comments differ, the model follows the code: low links are not the least reachable order, the visit flag of the
matching is not refreshed after a failure, reversing an edge list twice leaves two more sentinels, and nodes marked full keep stale
children.

## Model

| member | source | states |
|---|---|---|
| IntervalSupply.FeasibleIffHall | python/worker_scheduling.py:3-10 | Units can be assigned to meet every demand if and only if no set of days asks for more than the supplies that reach it hold (max-flow/min-cut for interval supplies). |
| IntervalSupply.AssignmentMeetsHall | python/worker_scheduling.py:4-9 | One direction: whoever has an assignment of units can be charged against every set of days. |
| IntervalSupply.HallGivesAssignment | python/worker_scheduling.py:42-45 | The other direction: when no set of days is overloaded, serving earliest use from earliest end builds an assignment of units. |
| IntervalSupply.EarliestEndFirst | python/gift_points_heapq.py:60-69 | Exchange property of the greedy step: spending from the open supply that ends first, for the earliest use, changes feasibility neither way. |
| IntervalSupply.SlackBehindEarliestUse | python/worker_scheduling.py:44-45 | If a set of later days is reached by the supply that ends first, it has slack of at least the whole earliest use. |
| IntervalSupply.GiveBack | python/gift_points_heapq.py:64-66 | Undoing any legal spending, greedy or not, keeps feasibility. |
| IntervalSupply.NothingOpen | python/gift_points_heapq.py:70-71 | A use that still asks for something while nothing open is left makes the whole input infeasible, so raising is right. |
| IntervalSupply.HallFlip | python/gift_points_heapq.py:82-87 | Mirroring time, as the scan from the right does, keeps feasibility. |
| IntervalSupply.OneUse | python/gift_points_heapq.py:91-96 | A single demand can be met exactly up to the sum over the supplies open on its day. |
| EarliestEndScan.ResidualStep | python/gift_points_heapq.py:60-68 | One unit of greedy work keeps the residual property: whatever later uses are added, what is left is feasible exactly when the original was. |
| EarliestEndScan.ServeLeast | python/gift_points_heapq.py:61-68 | Serving from the heap entry that ends first keeps the whole scan invariant, with the entry dropped when it is empty. |
| EarliestEndScan.DropExpired | python/worker_scheduling.py:61-62 | Throwing away an expired heap entry loses nothing that any later use could need. |
| EarliestEndScan.Stuck | python/gift_points_heapq.py:70-71 | An empty heap with demand left refutes the original input, not just the remainder. |
| EarliestEndScan.ResidualOfSorted | python/gift_points_heapq.py:51-52 | After the scan the leftovers decide feasibility of any later uses, in whatever order the uses were given. |
| EarliestEndScan.PopEarliestEnd | python/gift_points_heapq.py:61 | The entry popped is in the heap, ends no later than any other, and only it is removed. |
| Sorting.BisectRight | python/gift_points_heapq.py:78 | The cut separates what is not greater from what is, for any total order. |
| GiftPointsHeap.SpendExtra | python/gift_points_heapq.py:80-96 | Two scans, the second in mirrored time on the leftovers of the first, decide every amount: an extra use of y points is feasible if and only if y is at most the leftovers open on its day. |
| GiftPointsHeap.GiftPoints.constructor | python/gift_points_heapq.py:34-36 | No grants and no uses at first. |
| GiftPointsHeap.GiftPoints.Add | python/gift_points_heapq.py:38-40 | Adds one grant and nothing else. |
| GiftPointsHeap.GiftPoints.AddUse | python/gift_points_heapq.py:42-47 | Adds one use and nothing else. |
| GiftPointsHeap.GiftPoints.Scan | python/gift_points_heapq.py:49-72 | Fails only on infeasible input; otherwise the leftovers decide, for all later uses at once, whether they can be met too. |
| GiftPointsHeap.GiftPoints.Query | python/gift_points_heapq.py:74-96 | Raises if and only if the uses cannot all be met; otherwise returns the greatest amount that can still be spent on the day with every past and future use met. |
| GiftPointsHeap.GiftPoints.OpenOn | python/gift_points_heapq.py:91-96 | The answer is the sum of the leftovers open on the day. |
| WorkerScheduling.FeasibleIsMonotone | python/worker_scheduling.py:26-37 | A smaller new project is feasible whenever a larger one is, so the binary search is sound. |
| WorkerScheduling.AtMostAllOpen | python/worker_scheduling.py:27-29 | No project can get more than the workers free on its day have, so the search starts from a true upper bound. |
| WorkerScheduling.Scheduler.constructor | python/worker_scheduling.py:13-17 | No workers and no projects at first. |
| WorkerScheduling.Scheduler.AddWorker | python/worker_scheduling.py:19-20 | Adds one worker and nothing else. |
| WorkerScheduling.Scheduler.AddProject | python/worker_scheduling.py:22-23 | Adds one project and nothing else. |
| WorkerScheduling.Scheduler.Move | python/worker_scheduling.py:53-69 | Serves a project from the heap, returns the units found, keeps the residual property, and comes up short only with an empty heap. |
| WorkerScheduling.Scheduler.CanServe | python/worker_scheduling.py:46-75 | True if and only if some assignment of worker units meets all projects and the new one within every interval and capacity. |
| WorkerScheduling.Scheduler.MaxUnitsOnDay | python/worker_scheduling.py:26-37 | The true maximum for a new project when the current ones can be met, and 0 when they cannot. |
| WorkerScheduling.Scheduler.OpenSum | python/worker_scheduling.py:27-29 | The search bound is the sum over the workers free on the day. |
| WorkerScheduling.SolversAgree | python/worker_scheduling.py:26-37 | On the same feasible data the two directed scans and the binary search give the same number. |
| BipartiteMatching.ExploreOneMore | cpp/Bipartite-matching.cc:16-28 | A failed search closes under alternating paths: every right vertex it flagged has a partner all of whose neighbours are flagged. |
| BipartiteMatching.TakeOver | cpp/Bipartite-matching.cc:23-26 | Passing a right vertex on to a new partner after the old one found another gives the new one a partner and costs nobody theirs. |
| BipartiteMatching.Matcher.constructor | cpp/Bipartite-matching.cc:7-13 | Nobody matched, nothing flagged, and the first flag value is fresh. |
| BipartiteMatching.Matcher.RecurseAugment | cpp/Bipartite-matching.cc:15-30 | Success matches one more left vertex and frees none; failure changes no partner and flags all that is reachable; vertices known to be dead are never touched. |
| BipartiteMatching.AfterSuccess | cpp/Bipartite-matching.cc:34-38 | Vertices marked by earlier failures stay dead after a later success, although the flags are then refreshed. |
| BipartiteMatching.AfterFailure | cpp/Bipartite-matching.cc:34-38 | After a failure the flagged vertices join the dead ones, which justifies not refreshing the flag. |
| BipartiteMatching.MatchingAtMostCover | cpp/Bipartite-matching.cc:34-39 | No matching is larger than any vertex cover. |
| BipartiteMatching.DeadGivesCover | cpp/Bipartite-matching.cc:34-39 | The dead right vertices and the remaining matched left vertices form a vertex cover as large as the matching (Koenig). |
| BipartiteMatching.MaximumCardinalityBipartiteMatch | cpp/Bipartite-matching.cc:7-40 | The result is a matching, there is a cover of the same size, and no matching is larger. |
| RingAllReduce.ChunksScattered | cpp/reduce.cc:134-135 | In the first phase what a thread sends is what its successor expects, one step further around the ring. |
| RingAllReduce.ChunksShared | cpp/reduce.cc:151-152 | The same for the second phase, where complete sums travel. |
| RingAllReduce.SendsWhatItHolds | cpp/reduce.cc:136-139 | The message of each round carries the value the sender holds after as many rounds. |
| RingAllReduce.ReceiveUpdates | cpp/reduce.cc:142-143 | What a message adds or overwrites is exactly what the receiver holds one round later. |
| RingAllReduce.SendKeepsQueues | cpp/reduce.cc:136-139 | Each queue holds, in order, what its only sender sent and its owner has not received. |
| RingAllReduce.ReceiveHead | cpp/message_queue.h:22-28 | The message at the head of a queue is the one the predecessor sent in the receiver's own round. |
| RingAllReduce.ReceiveKeepsValues | cpp/reduce.cc:142-144 | A receive keeps every held value as specified, and the chunk id of the message is the expected one. |
| RingAllReduce.EnterKeepsFence | cpp/reduce.cc:35-39 | The counter of each round is the number of threads that have entered it. |
| RingAllReduce.AllEntered | cpp/reduce.cc:40-43 | A complete counter means that every thread has entered the round. |
| RingAllReduce.PassKeepsFence | cpp/reduce.cc:40-43 | Nobody is a round ahead of a thread that has not entered the fence. |
| RingAllReduce.StepKeepsInv | cpp/reduce.cc:127-162 | Every step of every thread keeps the values, queues and fence invariants. |
| RingAllReduce.EveryStateInv | cpp/reduce.cc:127-182 | The invariant holds after every step of every interleaving, and each step makes one unit of progress. |
| RingAllReduce.CheckNeverFails | cpp/reduce.cc:144 | In no interleaving does the check on the chunk id of a received message fail. |
| RingAllReduce.MessageOrSender | cpp/reduce.cc:140-144 | The slowest thread either finds a message or its predecessor can still send it. |
| RingAllReduce.NoDeadlock | cpp/reduce.cc:127-162 | Until all are done, some thread can step. |
| RingAllReduce.FullCircle | cpp/reduce.cc:133-147 | Adding along the ring from a chunk's owner once around gives the column sum. |
| RingAllReduce.ScatterPhase | cpp/reduce.cc:133-147 | After the first phase thread t holds the full sum of chunk (t + 1) mod n. |
| RingAllReduce.AllReduced | cpp/reduce.cc:150-161 | When a thread is done it holds every column sum. |
| RingAllReduce.RingAllReduceCorrect | cpp/reduce.cc:164-182 | Every run is finite, and when no thread can step every vector equals the column sums. |
| RingAllReduce.ColumnIsSum | cpp/reduce.cc:133-147 | Adding up a column entry by entry is the sum over the vectors of that entry. |
| RingAllReduce.RunsToTheEnd | cpp/reduce.cc:164-182 | Every run can be continued until every vector equals the column sums. |
| RingAllReduce.SomeRunEnds | cpp/reduce.cc:164-182 | For every input there is a run from the initial state that ends with the column sums. |
| TreeReduce.Parent | cpp/reduce.cc:78-79 | The destination of a sender is its id less r, and takes part in the next round. |
| TreeReduce.SendKeepsMail | cpp/reduce.cc:80-84 | Sent messages are the received ones and those still queued, whatever round they come from. |
| TreeReduce.ReceiveKeepsMail | cpp/reduce.cc:86-88 | A receive takes one message from whichever child was first and counts it once. |
| TreeReduce.StepKeepsInv | cpp/reduce.cc:74-92 | Every step keeps who has sent, who has received what, and the queues in agreement. |
| TreeReduce.StepConserves | cpp/reduce.cc:80-88 | Values held and values in flight add up to the same total before and after every step. |
| TreeReduce.HeardFromAllChildren | cpp/reduce.cc:76-90 | Before it sends, and when it stops, a node has received from exactly its children, once each, and its queue is empty. |
| TreeReduce.NoDeadlock | cpp/reduce.cc:74-92 | Until all have stopped, some thread can step. |
| TreeReduce.EveryState | cpp/reduce.cc:74-92 | In every reachable state the invariant holds and the total is that of the input. |
| TreeReduce.TreeReduceCorrect | cpp/reduce.cc:94-112 | Every run is finite, and when no thread can step values[0] is the total of the input. |
| TreeReduce.RunsToTheEnd | cpp/reduce.cc:94-112 | Every run can be continued until values[0] is the total. |
| TreeReduce.SomeRunEnds | cpp/reduce.cc:94-112 | For every input there is a run from the initial state that ends with the total. |
| TreeReduce.HalfwayStep | cpp/reduce.cc:119-120 | One addition of the sequential loop turns the sum of one block into the sum of two. |
| TreeReduce.SimulateBinaryTreeReduce | cpp/reduce.cc:114-125 | The sequential simulation returns the total and leaves it in values[0]. |
| FencedTreeReduce.ParticipantsAreMultiples | cpp/reduce.cc:54 | The fence expects as many threads as there are multiples of r. |
| FencedTreeReduce.FenceHolds | cpp/reduce.cc:35-46 | Once a thread is past the fence of a round, every participant has arrived there. |
| FencedTreeReduce.DestinationOpen | cpp/reduce.cc:56-61 | The thread a value is added to has not stopped, so the value is passed on later. |
| FencedTreeReduce.NoRace | cpp/reduce.cc:56-61 | Two additions that are pending at the same time touch different cells, so the unlocked array is safe. |
| FencedTreeReduce.WorkKeepsInv | cpp/reduce.cc:56-61 | An addition keeps the fence invariant. |
| FencedTreeReduce.EnterKeepsInv | cpp/reduce.cc:35-39 | Entering keeps each counter equal to the number of arrivals. |
| FencedTreeReduce.LeaveKeepsInv | cpp/reduce.cc:40-43 | Whoever leaves a fence leaves it complete. |
| FencedTreeReduce.StepOfConserves | cpp/reduce.cc:56-61 | The values that have not been added to another keep their sum. |
| FencedTreeReduce.FenceOpens | cpp/reduce.cc:40-43 | When those furthest behind all wait at a fence, its counter is complete. |
| FencedTreeReduce.SomebodyCanStep | cpp/reduce.cc:48-67 | Until all are done, some thread can step. |
| FencedTreeReduce.EveryShared | cpp/reduce.cc:48-67 | In every reachable state the invariant holds, the total is that of the input, and each step made progress. |
| FencedTreeReduce.FirstHoldsAll | cpp/reduce.cc:94-112 | When all are done only the first cell still counts. |
| FencedTreeReduce.FencedTreeReduceCorrect | cpp/reduce.cc:94-112 | Every run is finite, and when no thread can step values[0] is the total of the input. |
| FencedTreeReduce.RunsToTheEnd | cpp/reduce.cc:94-112 | Every run can be continued until values[0] is the total. |
| FencedTreeReduce.SomeRunEnds | cpp/reduce.cc:94-112 | For every input there is a run from the initial state that ends with the total. |
| DijkstraHeap.EmptyHeapIsShortest | cpp/Dijkstra.cc:28 | With an empty heap no edge can be relaxed, and every distance is the least over all walks from the seeds. |
| Walks.ShortestIsUnique | cpp/Dijkstra.cc:28 | The seeds and edges leave only one array of least distances. |
| DijkstraHeap.PopCovers | cpp/Dijkstra.cc:29-34 | Any entry may be popped: a stale one can be skipped, and a current one leaves only the edges of its node open. |
| DijkstraHeap.RelaxOne | cpp/Dijkstra.cc:35-41 | Relaxing one edge and pushing its end keeps every other open edge covered by a heap entry. |
| DijkstraHeap.AttainedStep | cpp/Dijkstra.cc:36-38 | A relaxed distance is still the weight of a walk from a seed. |
| DijkstraHeap.Dijkstra.constructor | cpp/Dijkstra.cc:10 | No arcs at first. |
| DijkstraHeap.Dijkstra.AddEdge | cpp/Dijkstra.cc:12-16 | Adds exactly one arc. |
| DijkstraHeap.Dijkstra.Run | cpp/Dijkstra.cc:18-44 | From any seeds whose only open edges leave the sources, the result is the shortest distance from the seeds, for any pop order; so incremental runs after new edges are exact. |
| ModifiedGraphEdges.FirstGraph | cpp/4fun/LC-2699.cc:62-69 | The first graph has both directions of every edge, open weights set to target. |
| ModifiedGraphEdges.FirstDistances | cpp/4fun/LC-2699.cc:71-74 | The first run gives the exact distances, cut off at the sentinel. |
| ModifiedGraphEdges.PickWeight | cpp/4fun/LC-2699.cc:86-93 | The weight is at least 1, makes both detours at least target, and is more than 1 only if one detour is then exactly target. |
| ModifiedGraphEdges.WalkKeepsApart | cpp/4fun/LC-2699.cc:87-93 | No walk that uses the new edge, however often and in either direction, comes below target. |
| ModifiedGraphEdges.NewEdgeStaysAbove | cpp/4fun/LC-2699.cc:87-93 | Adding an edge of the chosen weight never brings the distance below target. |
| ModifiedGraphEdges.NewEdgeReaches | cpp/4fun/LC-2699.cc:87-93 | The detour over the new edge bounds the new distance from above. |
| ModifiedGraphEdges.StillExact | cpp/4fun/LC-2699.cc:98-99 | Re-running from the two ends alone keeps a distance array exact. |
| ModifiedGraphEdges.EdgeAdded | cpp/4fun/LC-2699.cc:85-101 | One pass of the loop keeps both arrays exact and the distance at or above target, and reaches target as soon as a weight above 1 is chosen. |
| ModifiedGraphEdges.AddBothWays | cpp/4fun/LC-2699.cc:96-97 | Adds the two arcs of an edge and no other. |
| ModifiedGraphEdges.FillOpenEdges | cpp/4fun/LC-2699.cc:84-101 | After the loop the distance is target, or every open edge has weight 1. |
| ModifiedGraphEdges.NotConnected | cpp/4fun/LC-2699.cc:75-78 | If the first distance is the sentinel, no assignment at all reaches target. |
| ModifiedGraphEdges.TooShort | cpp/4fun/LC-2699.cc:79-82 | If the first distance is below target, fixed edges alone are too short for every assignment. |
| ModifiedGraphEdges.TooLong | cpp/4fun/LC-2699.cc:102-106 | If weights of 1 everywhere still leave the distance above target, no assignment reaches it. |
| ModifiedGraphEdges.FinalDistance | cpp/4fun/LC-2699.cc:102-104 | The filled edges answer the question when the maintained distance is target. |
| ModifiedGraphEdges.ModifiedGraphEdges | cpp/4fun/LC-2699.cc:60-107 | Sound and complete for every target above 0: a non-empty result keeps the fixed weights, sets every open one to at least 1 and makes the distance exactly target; an empty result means that no such weights exist. For a target of 0 the result is right exactly when open edges, taken at weight 0, do not make a free walk that edges fixed at 0 do not. |
| ModifiedGraphEdges.AnswerForZero | cpp/4fun/LC-2699.cc:61-67 | Whether a filling meets a target of 0 does not depend on the weights: a walk over edges fixed at 0 decides. |
| ModifiedGraphEdges.BuiltForZero | cpp/4fun/LC-2699.cc:84-104 | With a target of 0 the code decides by the first graph, where open edges weigh 0 and stay in the graph. |
| ModifiedGraphEdges.RightForZero | cpp/4fun/LC-2699.cc:102-106 | The exact condition under which the result for a target of 0 is right. |
| ModifiedGraphEdges.WrongForZero | cpp/4fun/LC-2699.cc:66 | One open edge between the two nodes: a target of 0 is taken as met, though the edge gets a weight of 1. |
| Tarjan.ScanKeepsInv | cpp/Strongly-connected-components.cc:116-122 | Lowering a low link to that of a neighbour on the stack keeps the invariant, although it may not be the least reachable order. |
| Tarjan.PushKeepsInv | cpp/Strongly-connected-components.cc:100-105 | Visiting a new node keeps the invariant. |
| Tarjan.AdvanceKeepsInv | cpp/Strongly-connected-components.cc:123-125 | Moving past an edge that has been looked at keeps the invariant. |
| Tarjan.PopKeepsInv | cpp/Strongly-connected-components.cc:127-134 | Leaving a node that is not a root, with its low link handed to its parent, keeps the invariant. |
| Tarjan.BackToRoot | cpp/Strongly-connected-components.cc:135-143 | Every node seen since a root reaches the root. |
| Tarjan.EdgesStay | cpp/Strongly-connected-components.cc:135-143 | No edge of these nodes leads to an older node that is still open. |
| Tarjan.CutComponents | cpp/Strongly-connected-components.cc:135-143 | What is cut off at a root is one whole component. |
| Tarjan.CutKeepsInv | cpp/Strongly-connected-components.cc:135-143 | Cutting a component off keeps the invariant for the rest. |
| Tarjan.SccFinder.PushToStack | cpp/Strongly-connected-components.cc:100-105 | Does to the fields what a push of the abstract state is. |
| Tarjan.SccFinder.ScanEdgesOf | cpp/Strongly-connected-components.cc:116-122 | Stops at an unvisited neighbour or at the end of the list, with the invariant kept. |
| Tarjan.SccFinder.CollectComponent | cpp/Strongly-connected-components.cc:135-143 | Moves exactly the nodes seen since the root into a new component and marks them. |
| Tarjan.SccFinder.Leave | cpp/Strongly-connected-components.cc:128-144 | Takes one node off the stack, with its component if it is a root, and visits none. |
| Tarjan.SccFinder.Dfs | cpp/Strongly-connected-components.cc:112-146 | Leaves an empty stack, the root visited, and the invariant kept. |
| Tarjan.AllInComponents | python/Strongly-connected-components.py:70-73 | When everything is visited the collected lists are the components in reverse topological order. |
| Tarjan.FindScc | python/Strongly-connected-components.py:10-73 | Every node is in exactly one component, two nodes share one if and only if each reaches the other, and no edge leads to a later component. |
| Tarjan.ReversedComponents | cpp/Strongly-connected-components.cc:148 | Reversing the list gives the components in topological order. |
| Tarjan.OnePassAlgorithm | cpp/Strongly-connected-components.cc:84-150 | The C++ form returns the components, each node once, in topological order. |
| Kosaraju.SkipKeepsInv | cpp/Strongly-connected-components.cc:37-39 | Skipping visited neighbours keeps the invariant. |
| Kosaraju.PushKeepsInv | cpp/Strongly-connected-components.cc:44-47 | Pushing an unvisited neighbour keeps the invariant. |
| Kosaraju.FinishSettles | cpp/Strongly-connected-components.cc:40-42 | When a node finishes, each node it has an edge to finishes earlier, or reaches back all that finished since. |
| Kosaraju.FinishKeepsInv | cpp/Strongly-connected-components.cc:40-42 | Finishing a node keeps the invariant. |
| Kosaraju.DepthFirst.SkipVisited | cpp/Strongly-connected-components.cc:37-39 | Stops at an unvisited neighbour or at the end of the list. |
| Kosaraju.DepthFirst.PushNode | cpp/Strongly-connected-components.cc:46-47 | Marks one more node and pushes it. |
| Kosaraju.DepthFirst.Explore | cpp/Strongly-connected-components.cc:32-49 | Finishes exactly a tree of nodes that its root reaches, the root last. |
| Kosaraju.TreeGrown | cpp/Strongly-connected-components.cc:27-33 | Each finished tree extends a forest cut out of the finish order. |
| Kosaraju.Search | cpp/Strongly-connected-components.cc:17-51 | One full search gives a finish order and a forest whose roots come in the given order. |
| Kosaraju.ReachesBack | cpp/Strongly-connected-components.cc:53-62 | The last to finish among what a node reaches, reaches back everything that finished in between. |
| Kosaraju.RootReaches | cpp/Strongly-connected-components.cc:74-79 | A node of a tree of the second search and its root reach each other. |
| Kosaraju.TreesAreComponents | cpp/Strongly-connected-components.cc:74-79 | The trees of the search on reversed edges are the components, in topological order. |
| Kosaraju.KosarajuAlgorithm | cpp/Strongly-connected-components.cc:16-80 | Returns the components, each node once, in topological order. |
| Kosaraju.SameComponents | cpp/Strongly-connected-components.cc:228-239 | Any two algorithms that meet the contract, such as Kosaraju's and the one-pass one, give the same partition. |
| MaxVisits.VisitsFall | python/Strongly-connected-components.py:96-106 | A walk never climbs to a component with a higher number. |
| MaxVisits.AtMostBest | python/Strongly-connected-components.py:96-106 | No walk visits more nodes than the best of its first component. |
| MaxVisits.BestIsWalked | python/Strongly-connected-components.py:96-106 | Some walk from each node visits as many nodes as the best of its component. |
| MaxVisits.BuildEdges | python/Strongly-connected-components.py:81-83 | The lists hold exactly the given edges, from 0 on. |
| MaxVisits.NumberNodes | python/Strongly-connected-components.py:91-95 | Each node is numbered with the component it is in. |
| MaxVisits.VisitEdges | python/Strongly-connected-components.py:98-105 | One node's edges raise only its own component's best, each raise with a reason. |
| MaxVisits.VisitComponent | python/Strongly-connected-components.py:96-105 | A component's best is its size plus the best among the components it leads to. |
| MaxVisits.VisitComponents | cpp/Strongly-connected-components.cc:171-184 | All components get their best in one pass over the reverse topological order. |
| MaxVisits.GetMaxVisitableWebpages | python/Strongly-connected-components.py:79-106 | The result is the greatest number of distinct pages over all walks: no walk visits more, and one visits as many. |
| ForwardStar.DirectEdgeList.AddEdge | cpp/graph.h:20-31 | Adds one edge and grows the vertex count to cover both ends. |
| ForwardStar.FindStarts | cpp/graph.h:39-46 | One sweep finds, for every node, the first place with an edge from it or from a later node. |
| ForwardStar.DirectEdgeList.Finalize | cpp/graph.h:33-47 | The edges are the same with one sentinel more, in order, with the start of every node. |
| ForwardStar.SwapCount | cpp/graph.h:50-52 | Swapping ends gives each edge as often as its reverse was there. |
| ForwardStar.DirectEdgeList.Reverse | cpp/graph.h:49-54 | Afterwards each edge is there as often as its reverse was before, finalized again. |
| ForwardStar.Iterate | cpp/graph.h:59-81 | Iterating from a node's start gives exactly its targets, in ascending order, and the sentinel stops it. |
| ForwardStar.TargetCount | cpp/graph.h:102-106 | A target is given as often as its edge is in the list. |
| ForwardStar.TargetsRise | cpp/graph.h:33-57 | The targets of a node come in ascending order. |
| ForwardStar.AllTails | cpp/Strongly-connected-components.cc:22-25 | The iterators together give adjacency lists with exactly the edges of the list. |
| ForwardStar.ListsReversed | cpp/graph.h:49-54 | The lists after a reversal are the transposed ones. |
| ForwardStar.KosarajuOn | cpp/Strongly-connected-components.cc:16-80 | On the edge list itself, reversed in place and back, the result is the components in topological order and the edges are what they were. |
| ShortestPalindrome.FallBack | python/shortest-palindrome.py:31-32 | Falling back to the border of the matched prefix skips no prefix that could be extended by the next letter. |
| ShortestPalindrome.NextLongest | python/shortest-palindrome.py:33-34 | After one letter the length is that of the longest prefix that ends the text read. |
| ShortestPalindrome.BorderStep | python/shortest-palindrome.py:10-15 | The longest prefix that ends the text from the second letter on is the longest proper border. |
| ShortestPalindrome.GetKmp | python/shortest-palindrome.py:2-16 | Entry i is the length of the longest proper border of the first i + 1 letters, for every i. |
| ShortestPalindrome.LongestPalindromicPrefix | python/shortest-palindrome.py:28-34 | The scan over the reversed string ends with the longest prefix that ends it. |
| ShortestPalindrome.PalindromePrefix | python/shortest-palindrome.py:28-34 | A prefix ends the reversed string if and only if it is a palindrome. |
| ShortestPalindrome.CentreIsPalindrome | python/shortest-palindrome.py:38 | A palindrome that ends in s, of at most twice its length, shows a palindromic prefix of s. |
| ShortestPalindrome.MirrorIsPalindrome | python/shortest-palindrome.py:38 | Mirroring what follows a palindromic prefix gives a palindrome that ends in s. |
| ShortestPalindrome.NoShorter | python/shortest-palindrome.py:38 | No palindrome that ends in s is shorter. |
| ShortestPalindrome.Shortest | python/shortest-palindrome.py:18-38 | The result reads the same from both ends and ends in s, and no shorter string does both, for every s. |
| ShortestPalindrome.PalindromeMeans | python/shortest-palindrome.py:38 | A string equals its reverse exactly when it reads the same from both ends. |
| DiningPhilosophers.PhilosophersSync.constructor | cpp/Dining_philosophers_problem.cc:151-156 | Everybody thinks and every semaphore is 0. |
| DiningPhilosophers.PhilosophersSync.Try | cpp/Dining_philosophers_problem.cc:220-233 | Does to the fields what the step of the table is. |
| DiningPhilosophers.PhilosophersSync.TakeForks | cpp/Dining_philosophers_problem.cc:168-172 | The philosopher is hungry, or eats if neither neighbour does, and its semaphore is raised only in the second case. |
| DiningPhilosophers.PhilosophersSync.Acquire | cpp/Dining_philosophers_problem.cc:175 | Takes the own semaphore, which had been raised. |
| DiningPhilosophers.PhilosophersSync.Release | cpp/Dining_philosophers_problem.cc:179-188 | The philosopher thinks, and the two neighbours are served if they can eat. |
| DiningPhilosophers.TryKeepsApart | cpp/Dining_philosophers_problem.cc:220-224 | No two neighbours eat after it, and whoever ate still does. |
| DiningPhilosophers.TakeKeepsInv | cpp/Dining_philosophers_problem.cc:168-172 | Asking for forks keeps the invariant, in particular that whoever stays hungry has an eating neighbour. |
| DiningPhilosophers.PutServes | cpp/Dining_philosophers_problem.cc:184-187 | After forks are put back everybody who is still hungry has an eating neighbour: no wake-up is lost. |
| DiningPhilosophers.PutKeepsInv | cpp/Dining_philosophers_problem.cc:179-188 | Putting the forks back keeps the invariant. |
| DiningPhilosophers.StepKeepsInv | cpp/Dining_philosophers_problem.cc:162-188 | Every step keeps neighbours apart, the semaphores at 1 only for eating philosophers yet to acquire them, and hungry ones next to an eating one. |
| DiningPhilosophers.NoLostWakeUp | cpp/Dining_philosophers_problem.cc:173-175 | Only the hungry are blocked, and every hungry philosopher has a neighbour that eats and can go on, whose putting the forks back serves it. |
| DiningPhilosophers.StepKeepsLog | cpp/Dining_philosophers_problem.cc:271-294 | Replaying the log always gives the forks in use, so no fork is taken twice or put back by another. |
| DiningPhilosophers.EveryState | cpp/Dining_philosophers_problem.cc:162-188 | The invariant and the log agree in every state of every interleaving. |
| DiningPhilosophers.DiningSafely | cpp/Dining_philosophers_problem.cc:162-188 | In every reachable state philosophers p and p + 1 modulo n never both eat, the log check has not failed, whoever is hungry, and nobody else, is blocked and has a neighbour on one side that eats and can go on, and somebody can step. |
| DiningPhilosophers.RunsOn | cpp/Dining_philosophers_problem.cc:162-188 | Every run can be continued for as long as one likes. |
| DiningPhilosophers.SomeRunIsLong | cpp/Dining_philosophers_problem.cc:150-155 | From the start there are runs of every length. |
| DiningPhilosophers.LogIsChecked | cpp/Dining_philosophers_problem.cc:271-290 | The check on the log fails exactly when a fork is taken that is in use, or one put back that is not. |
| FloydWarshallMatrix.NoWalkIsShorter | cpp/FloydWarshall.cc:38-43 | No walk of the graph weighs less than the matrix says. |
| FloydWarshallMatrix.ExactIsUnique | cpp/FloydWarshall.cc:48-49 | A graph has one exact matrix, so adding an edge in place gives what rebuilding gives. |
| FloydWarshallMatrix.RelaxedTriangle | cpp/FloydWarshall.cc:29-35 | A detour taken by every pair keeps the triangle inequalities that held before. |
| FloydWarshallMatrix.RoundAddsNode | cpp/FloydWarshall.cc:29-35 | After round k no detour over the nodes up to k is shorter. |
| FloydWarshallMatrix.RelaxedSound | cpp/FloydWarshall.cc:30-32 | Distances stay the weights of walks. |
| FloydWarshallMatrix.RelaxedFirstEdges | cpp/FloydWarshall.cc:31-34 | The recorded first edges stay edges that a shortest path begins with. |
| FloydWarshallMatrix.RelaxedPathsEnd | cpp/FloydWarshall.cc:29-35 | Following recorded first edges still comes to an end after the detours, edges of weight 0 included. |
| FloydWarshallMatrix.SeedEdge | cpp/FloydWarshall.cc:21-27 | Reading in one edge keeps the matrix sound and covers the edge. |
| FloydWarshallMatrix.FloydWarshall.RelaxAll | cpp/FloydWarshall.cc:29-35 | Updating the matrix in place gives what updating from a copy gives. |
| FloydWarshallMatrix.FloydWarshall.constructor | cpp/FloydWarshall.cc:12-36 | The matrix is exact for the given edges, with a first edge for every finite distance. |
| FloydWarshallMatrix.FloydWarshall.Distance | cpp/FloydWarshall.cc:38-43 | The least weight of a walk, or none exactly when no walk weighs less than the sentinel. |
| FloydWarshallMatrix.NewEdgeCovered | cpp/FloydWarshall.cc:52-54 | An edge that is no shorter than the distance changes nothing. |
| FloydWarshallMatrix.EdgeAdded | cpp/FloydWarshall.cc:55-61 | One sweep of detours over the new edge makes the matrix exact for the longer edge list. |
| FloydWarshallMatrix.FloydWarshall.AddEdge | cpp/FloydWarshall.cc:49-62 | The matrix stays exact, now for the edges with the new one. |
| FloydWarshallMatrix.FollowEdge | cpp/FloydWarshall.cc:67-68 | The distance is the weight of the first edge and the distance from its end. |
| FloydWarshallMatrix.FloydWarshall.ShortestPath | cpp/FloydWarshall.cc:63-72 | Following first edges terminates, for any weights, with a connected path whose weight is the distance. |
| CartesianTree.StrengthSplit | python/Cartesian-tree.py:42-89 | The sum over all subarrays of a range is the sums left and right of a position and that over the subarrays across it. |
| CartesianTree.CrossFormula | python/Cartesian-tree.py:48-72 | With the least element at the position, the sum across is the product form the code computes. |
| CartesianTree.RightsFromPrefixes | python/Cartesian-tree.py:61-66 | Sums of prefix sums give the sum over all right ends. |
| CartesianTree.LeftsFromSuffixes | python/Cartesian-tree.py:50-55 | Sums of suffix sums give the sum over all left ends. |
| CartesianTree.SpineStep | python/Cartesian-tree.py:23-28 | Popping what is not smaller and pushing the next element keeps the right spine of a Cartesian tree. |
| CartesianTree.SpineTree | python/Cartesian-tree.py:17-20 | Every node of the spine roots a tree that is heap-ordered and in-order over its range. |
| CartesianTree.GetCartesianTree | python/Cartesian-tree.py:12-31 | The result is a heap-ordered tree whose in-order is 0 .. n - 1. |
| CartesianTree.PrefixStep | python/Cartesian-tree.py:95-97 | One step of the prefix arrays modulo 10^9 + 7. |
| CartesianTree.SuffixStep | python/Cartesian-tree.py:101-103 | One step of the suffix arrays modulo 10^9 + 7. |
| CartesianTree.NodeTermIsCross | python/Cartesian-tree.py:48-72 | A node's term is congruent to the sum of minimum times sum over the subarrays across it. |
| CartesianTree.Solution.Solve | python/Cartesian-tree.py:42-89 | A subtree gives the sum over the subarrays of its range, modulo 10^9 + 7, with calls nested at most logarithmically deep. |
| CartesianTree.Solution.TotalStrength | python/Cartesian-tree.py:91-107 | The result is the sum over all non-empty subarrays of minimum times sum, modulo 10^9 + 7. |
| CartesianTree.Examples | python/Cartesian-tree.py:112-114 | The two values that the source asserts, for the sum by definition. |
| FenwickTrees.CeilingTwo | cpp/fenwick-tree.cc:3-9 | The least power of two that is not below n. |
| FenwickTrees.LsbDivides | cpp/fenwick-tree.cc:12 | The least significant bit is the greatest power of two that divides the number. |
| FenwickTrees.ClimbIsContains | cpp/fenwick-tree.cc:34-41 | Climbing from a point visits exactly the segments that contain it. |
| FenwickTrees.ExactCover | cpp/fenwick-tree.cc:52-66 | The segments and points of a range cover each of its points once and nothing else. |
| FenwickTrees.PrefixSegments | cpp/fenwick-tree.cc:52-66 | A prefix is covered by segments alone, the ones that end in it and climb out of it. |
| FenwickTrees.FenwickTree.constructor | cpp/fenwick-tree.cc:20 | Room for the size, everything at the initial value. |
| FenwickTrees.FenwickTree.TraverseSegmentsFor | cpp/fenwick-tree.cc:52-66 | Applies the callback once to each segment and point of the cover and to no other. |
| FenwickTrees.FenwickTree.Grow | cpp/fenwick-tree.cc:75-80 | Doubles the size; old values stay and new ones are initial. |
| FenwickTrees.FenwickTree.SetPoint | cpp/fenwick-tree.cc:24 | Sets one point and nothing else. |
| FancySequence.AddFollows | cpp/fenwick-tree.cc:165-168 | Adding to a segment's coefficients adds the increment, modulo 10^9 + 7, to what it gave before. |
| FancySequence.MultiplyFollows | cpp/fenwick-tree.cc:170-175 | Multiplying a segment's coefficients multiplies, modulo 10^9 + 7, what it gave before. |
| FancySequence.UpdateIsLast | cpp/fenwick-tree.cc:165-175 | An update of the prefix comes last on the climb from each of its points, so the updates act in the order they were made although they do not commute. |
| FancySequence.ClimbGrown | cpp/fenwick-tree.cc:159-161 | Growing the tree changes no element. |
| FancySequence.AppendedValue | cpp/fenwick-tree.cc:157-163 | Growing and setting the next point appends one element that no earlier update touches. |
| FancySequence.Fancy.constructor | cpp/fenwick-tree.cc:155 | The empty list. |
| FancySequence.Fancy.Append | cpp/fenwick-tree.cc:157-163 | The list with the value modulo 10^9 + 7 at its end. |
| FancySequence.Fancy.AddAll | cpp/fenwick-tree.cc:165-168 | The same length, and every element with the increment added, modulo 10^9 + 7. |
| FancySequence.Fancy.MultAll | cpp/fenwick-tree.cc:170-175 | The same length, and every element multiplied, modulo 10^9 + 7. |
| FancySequence.Fancy.GetIndex | cpp/fenwick-tree.cc:177-192 | The element of the plain list, or -1 beyond its end. |
| SegmentTreeFancy.ConstructSegmentTree | python/segment-tree-2.py:31-40 | A tree over the range whose leaves are single points, untouched. |
| SegmentTreeFancy.FindLeaf | python/segment-tree-2.py:43-47 | The descent ends in the leaf of the point. |
| SegmentTreeFancy.SetLeaf | python/segment-tree-2.py:43-47 | Sets one element of the list the tree stands for and no other. |
| SegmentTreeFancy.LeafSet | python/segment-tree-2.py:43-47 | A leaf that no update has touched contributes just its value. |
| SegmentTreeFancy.OpForAll | python/segment-tree-2.py:50-59 | Applies the update once to each node of the cover of the prefix and to no other. |
| SegmentTreeFancy.CoverUpdated | python/segment-tree-2.py:50-59 | Updating the cover applies the update last to every element of the prefix and to none beyond. |
| SegmentTreeFancy.Query | python/segment-tree-2.py:62-74 | Reads the element: its leaf, then every node above it. |
| SegmentTreeFancy.ReadUp | python/segment-tree-2.py:68-74 | Going back up applies the nodes from the leaf to the root. |
| SegmentTreeFancy.GrownValues | python/segment-tree-2.py:77-81 | A new root over the old one changes no element. |
| SegmentTreeFancy.AllUpdated | python/segment-tree-2.py:97-114 | An update of all maps the whole list. |
| SegmentTreeFancy.Fancy.constructor | python/segment-tree-2.py:85-87 | The empty list. |
| SegmentTreeFancy.Fancy.GrowTree | python/segment-tree-2.py:77-81 | Doubles the room and keeps the list. |
| SegmentTreeFancy.Fancy.Append | python/segment-tree-2.py:89-95 | The list with the value modulo 10^9 + 7 at its end. |
| SegmentTreeFancy.Fancy.AddAll | python/segment-tree-2.py:97-104 | The same length, and every element with the increment added, modulo 10^9 + 7. |
| SegmentTreeFancy.Fancy.MultAll | python/segment-tree-2.py:106-114 | The same length, and every element multiplied, modulo 10^9 + 7. |
| SegmentTreeFancy.Fancy.GetIndex | python/segment-tree-2.py:116-119 | The element of the plain list, or -1 beyond its end. |
| BookMyShows.SegmentMeans | cpp/segment-tree.cc:93-102 | A valid segment's minimum and sum are those of the rows it stands for, stale children notwithstanding. |
| BookMyShows.SegmentUpdated | cpp/segment-tree.cc:198-201 | A segment updated from two valid halves is valid for their rows. |
| BookMyShows.HalvesVisited | cpp/segment-tree.cc:198-201 | Visiting one half and then the other composes: each leaves the other's rows alone. |
| BookMyShows.NoneFits | cpp/segment-tree.cc:116-122 | A pruned segment has no row within the limit with room for the group. |
| BookMyShows.FillRow | cpp/segment-tree.cc:141-196 | Independent account of filling: each row up to the limit takes what the rows to its left could not, and the others nothing. |
| BookMyShows.FillTakes | cpp/segment-tree.cc:141-196 | Filling takes exactly the seats needed, or all that are free, and never overfills a row. |
| BookMyShows.BookMyShow.constructor | cpp/segment-tree.cc:91 | All rows empty. |
| BookMyShows.BookMyShow.GatherAt | cpp/segment-tree.cc:107-131 | Within one segment: seats the group in its leftmost row with room, touching only nodes below the segment. |
| BookMyShows.BookMyShow.Gather | cpp/segment-tree.cc:104-139 | The leftmost row up to maxRow with k free seats takes the group behind its earlier guests; without one nothing changes. A group of 0 gets the leftmost row that is not full. |
| BookMyShows.GroupOfNone | cpp/segment-tree.cc:94-96 | For a group of 0 that is the leftmost row of all exactly when this is not full. |
| BookMyShows.NoneSentOn | cpp/segment-tree.cc:94-96 | With a full first row a group of 0 is sent to the second, or away. |
| BookMyShows.BookMyShow.ScatterSeg | cpp/segment-tree.cc:144-182 | Within one node: counts or fills what the node holds, marking it full with stale children only when all its rows fill up. |
| BookMyShows.BookMyShow.ScatterAt | cpp/segment-tree.cc:51-71 | Within one segment: the seats still needed afterwards, and the rows filled from the left in the second pass. |
| BookMyShows.BookMyShow.Scatter | cpp/segment-tree.cc:141-196 | Succeeds if and only if rows 0 .. maxRow have k free seats in total, then fills from the left as on a plain array; a failure changes nothing. |
| PiecewiseMaxes.HighestInside | python/piecewise-max-function.py:30-33 | Within a segment's ends no other segment's line is higher. |
| PiecewiseMaxes.DropLast | python/piecewise-max-function.py:101-102 | A last segment that the new line covers can go. |
| PiecewiseMaxes.AppendLine | python/piecewise-max-function.py:110-118 | Cutting the last segment at the intersection and adding the line gives the envelope of all lines. |
| PiecewiseMaxes.EndReached | python/piecewise-max-function.py:104-118 | When no more segments drop, the queue is one cut away from the envelope, parallel lines included. |
| PiecewiseMaxes.DropFirst | python/piecewise-max-function.py:75-76 | A first segment that the new line covers can go. |
| PiecewiseMaxes.PrependLine | python/piecewise-max-function.py:85-94 | Cutting the first segment and putting the line before it gives the envelope of all lines. |
| PiecewiseMaxes.FrontReached | python/piecewise-max-function.py:82-94 | When no more segments drop, the queue is one cut away from the envelope. |
| PiecewiseMaxes.SearchEnds | python/piecewise-max-function.py:60-68 | The segment the binary search ends in gives the maximum of all lines. |
| PiecewiseMaxes.PiecewiseMax.constructor | python/piecewise-max-function.py:37-42 | No lines, with room at both ends. |
| PiecewiseMaxes.PiecewiseMax.AddFirst | python/piecewise-max-function.py:44-46 | A line alone covers the domain. |
| PiecewiseMaxes.PiecewiseMax.MaxYFor | python/piecewise-max-function.py:57-68 | The maximum over all lines added so far, for every point of the domain. |
| PiecewiseMaxes.PiecewiseMax.Append | python/piecewise-max-function.py:96-118 | A line of at least the last slope: the queue is the envelope with it. |
| PiecewiseMaxes.PiecewiseMax.CutLast | python/piecewise-max-function.py:110-118 | The in-place cut and push make the queue the envelope. |
| PiecewiseMaxes.PiecewiseMax.Prepend | python/piecewise-max-function.py:70-94 | A line of at most the first slope: the queue is the envelope with it. |
| PiecewiseMaxes.InFront | python/piecewise-max-function.py:137-141 | One fighter against all with no more damage: the best so far is exact. |
| PiecewiseMaxes.FightersInFront | python/piecewise-max-function.py:136-142 | The best over all pairs with the second fighter earlier in order. |
| PiecewiseMaxes.Behind | python/piecewise-max-function.py:145-151 | One fighter against all with no less damage: the best so far is exact. |
| PiecewiseMaxes.FightersBehind | python/piecewise-max-function.py:144-151 | The best over all ordered pairs. |
| PiecewiseMaxes.BestIsDealt | python/piecewise-max-function.py:129-152 | The order of the fighters does not matter for the best over pairs. |
| PiecewiseMaxes.GetMaxDamageDealt | python/piecewise-max-function.py:129-152 | The maximum over ordered pairs i and j that differ of d_i h_i + d_j h_i + d_j h_j, divided by B, and attained; 0 with fewer than two fighters. |
| GroupCommits.Merge | python/group_commit.py:67-69 | The merged datum is that of the members in queue order. |
| GroupCommits.MergesInQueueOrder | python/group_commit.py:67-69 | With concatenation as the merge, the merged datum is the members written down in queue order. |
| GroupCommits.MergesFromTheLeft | python/group_commit.py:67-69 | With subtraction as the merge, all other data are taken from the first: the merge goes from the left. |
| GroupCommits.JoinedInOrder | python/group_commit.py:50-54 | In every run the queue is in the order in which the threads joined it. |
| GroupCommits.CommitsInQueueOrder | python/group_commit.py:66-73 | In every run, with concatenation as the merge, each commit is its members in the order in which they joined. |
| GroupCommits.Joins | python/group_commit.py:51-54 | Joining the queue keeps every group and every leader; only the first to join leads. |
| GroupCommits.Takes | python/group_commit.py:62-64 | Taking the queue closes one group, led by its first member, and opens the next. |
| GroupCommits.FollowerReturns | python/group_commit.py:56-58 | A follower's return changes no group. |
| GroupCommits.LeaderSteps | python/group_commit.py:66-78 | Every other step belongs to the leader of one group and moves that group only. |
| GroupCommits.LogGrows | python/group_commit.py:71-73 | A commit adds its own group to the log, once and merged in order. |
| GroupCommits.StepKeepsCounts | python/group_commit.py:71-78 | Free permits and running commits add up to the maximum. |
| GroupCommits.StepKeepsInv | python/group_commit.py:49-78 | Every step keeps groups, log, events and permits in agreement. |
| GroupCommits.EveryState | python/group_commit.py:49-78 | The invariant holds in every state of every interleaving. |
| GroupCommits.CommittedOnce | python/group_commit.py:66-73 | No submission is in two commits or twice in one. |
| GroupCommits.ReturnedIsCommitted | python/group_commit.py:56-58 | Whoever has returned is in a finished commit, and gets its size if it led and 0 otherwise. |
| GroupCommits.FewCommitAtOnce | python/group_commit.py:71-73 | At most max_concurrent_commits commits run at once. |
| GroupCommits.WaiterIsServed | python/group_commit.py:57 | A follower that is not woken yet has a leader, the first of its own group or of the queue it is in, that has not returned and can go on unless it waits for the semaphore. |
| GroupCommits.NoDeadlock | python/group_commit.py:49-78 | Until all have returned, some thread can step. |
| GroupCommits.AllCommitted | python/group_commit.py:128-131 | When all have returned every submission is committed and the returned numbers add up to the number of submissions. |
| GroupCommits.GroupCommitCorrect | python/group_commit.py:49-78 | All of it together, for every state of every run. |
| GroupCommits.StepCounts | python/group_commit.py:49-78 | Every step of every thread raises a measure by exactly one. |
| GroupCommits.GroupCommitEnds | python/group_commit.py:125-126 | Every run is finite, and when no thread can step all have returned. |
| GroupCommits.RunsToTheEnd | python/group_commit.py:125-126 | With at least one permit every run can be continued until all have returned. |
| GroupCommits.SomeRunEnds | python/group_commit.py:125-126 | With at least one permit there is a run from the initial state after which all have returned. |
| GroupCommits.StepConserves | python/group_commit.py:49-78 | With addition as the merge, submitted data is conserved by every step. |
| GroupCommits.CommitsAddUp | python/group_commit.py:133-134 | With addition as the merge, the commits add up to the sum of the submitted data. |
| CrossDoubleLinks.Dnode.Remove | python/doubly_linked_list.py:15-25 | The neighbours are linked to each other and the removed node keeps its links. |
| CrossDoubleLinks.Dnode.Insert | python/doubly_linked_list.py:27-35 | The node is linked both ways right after this one. |
| CrossDoubleLinks.MinMaxCounters.constructor | python/cross-double-links.py:45-52 | The empty count. |
| CrossDoubleLinks.MinMaxCounters.AddToEmpty | python/cross-double-links.py:63-68 | The element becomes the first of an empty bucket. |
| CrossDoubleLinks.MinMaxCounters.AddToList | python/cross-double-links.py:63-68 | The element is linked behind the first of a bucket. |
| CrossDoubleLinks.MinMaxCounters.Add | python/cross-double-links.py:63-68 | The element is in its bucket, and nobody else changed buckets. |
| CrossDoubleLinks.MinMaxCounters.Unlink | python/cross-double-links.py:54-58 | The element leaves its bucket's list, which may now be empty. |
| CrossDoubleLinks.MinMaxCounters.NoElements | python/cross-double-links.py:59-60 | A bucket without a first element has no element. |
| CrossDoubleLinks.MinMaxCounters.DropHead | python/cross-double-links.py:59-60 | An empty bucket leaves the list of heads. |
| CrossDoubleLinks.MinMaxCounters.Remove | python/cross-double-links.py:54-61 | The element is gone, an emptied bucket with it, and nobody else changed buckets. |
| CrossDoubleLinks.MinMaxCounters.InsertHead | python/cross-double-links.py:84-87 | A new bucket at its place in the order of counts. |
| CrossDoubleLinks.MinMaxCounters.MoveUp | python/cross-double-links.py:78-88 | The element is in the bucket of the next higher count, and the others are where they were. |
| CrossDoubleLinks.MinMaxCounters.Inc | python/cross-double-links.py:70-88 | The counts are the old ones with one more for the key; the structure stays exact. |
| CrossDoubleLinks.MinMaxCounters.MoveDown | python/cross-double-links.py:94-111 | The element is in the bucket of the next lower count, or gone at 1. |
| CrossDoubleLinks.MinMaxCounters.Dec | python/cross-double-links.py:90-111 | The counts are the old ones with one less for the key, which goes at 0; an unknown key changes nothing. |
| CrossDoubleLinks.MinMaxCounters.FirstIsGreatest | python/cross-double-links.py:113-117 | The bucket behind max_head has the greatest count of all. |
| CrossDoubleLinks.MinMaxCounters.GetMax | python/cross-double-links.py:113-117 | A key of the greatest count, or none and 0 when there are no keys. |
| CrossDoubleLinks.MinMaxCounters.LastIsLeast | python/cross-double-links.py:119-123 | The bucket before min_tail has the least count of all. |
| CrossDoubleLinks.MinMaxCounters.GetMin | python/cross-double-links.py:119-123 | A key of the least count, or none and 0 when there are no keys. |
| Crawlers.Started | python/async_crawler.py:126-128 | Starting a crawl below the limit keeps every domain counter exact and within the limit. |
| Crawlers.Finished | python/async_crawler.py:141-144 | Taking a finished crawl off keeps every domain counter exact. |
| Crawlers.TaskQueued | python/async_crawler.py:122-125 | A task of a domain at its limit waits in that domain's queue; no task is lost. |
| Crawlers.TaskStarted | python/async_crawler.py:126-128 | A task that starts keeps both limits, and no task is lost. |
| Crawlers.JobsOf | python/async_crawler.py:119-121 | A given domain is kept; only a missing one is taken from the address. |
| Crawlers.TurnQueued | python/async_crawler.py:122-125 | A task that has to wait goes behind those of its domain that came before. |
| Crawlers.TurnStarted | python/async_crawler.py:126-128 | A task that starts at once passes no other of its domain. |
| Crawlers.TurnResumed | python/async_crawler.py:145-149 | The first in the queue is the next of its domain to start. |
| Crawlers.PlaceFreed | python/async_crawler.py:141-144 | A finished crawl of a domain without a queue frees its place. |
| Crawlers.PlacePassedOn | python/async_crawler.py:145-149 | A domain with a queue is at its limit, and a finished crawl passes its place on to the next task of the queue. |
| Crawlers.NothingGoing | python/async_crawler.py:135-136 | When nothing is going every domain queue is drained and every task has yielded its result. |
| Crawlers.AsyncCrawler.Start | python/async_crawler.py:126-128 | The only place where a crawl starts: it needs both limits to leave room, and neither is passed. |
| Crawlers.AsyncCrawler.PopulatePendingTasks | python/async_crawler.py:106-128 | Stops short of the limit only when no tasks are left; the assertion on the domain counter never fails. |
| Crawlers.AsyncCrawler.SeeTo | python/async_crawler.py:141-151 | One result is yielded, and the scheduler's invariant and the turns within each domain are kept. |
| Crawlers.AsyncCrawler.CrawlAll | python/async_crawler.py:130-151 | For any order of completion every task yields exactly one result and every queue is drained, provided that both limits are positive; if one is 0, nothing is ever yielded. The crawls of a domain start in the order in which its tasks were given. |
| ConnectFour.WinIsThreeNearby | cpp/connext_4.cc:30-45 | A move wins exactly when in its row, its column or one of its two diagonals at least three of the cells up to three steps away have the colour. |
| ConnectFour.MirrorKeepsValue | cpp/connext_4.cc:83-132 | A position and its mirror image are worth the same. |
| ConnectFour.KeyParts | cpp/connext_4.cc:47-51 | Heights and colours can be taken out of a key. |
| ConnectFour.KeyIsUnique | cpp/connext_4.cc:53-66 | A key determines the position, and with it the board and the mover. |
| ConnectFour.KeyDropped | cpp/connext_4.cc:55-66 | Adding to the heights and flipping the cell's bit gives the key of the position after the move. |
| ConnectFour.FlippedTwice | cpp/connext_4.cc:64-65 | Exclusive or with the bit of a cell, applied twice, gives the key back. |
| ConnectFour.RenderDropped | cpp/connext_4.cc:109-111 | Clearing the cell undoes the move on the board. |
| ConnectFour.Remembered | cpp/connext_4.cc:120 | Storing a right value keeps the whole table right, since no other position has the key. |
| ConnectFour.ColumnTried | cpp/connext_4.cc:104-119 | After each column the result is the best so far for the mover. |
| ConnectFour.AllColumnsTried | cpp/connext_4.cc:104-119 | After all columns the result is the minimax value. |
| ConnectFour.Solver.SetColor | cpp/connext_4.cc:55-66 | The new key and board are those of the position after the move. |
| ConnectFour.Solver.TreeSearch | cpp/connext_4.cc:83-132 | The memoised search returns the plain minimax value, restores the board, and leaves only right values in the table. |
| ConnectFour.Solver.Solve | cpp/connext_4.cc:177-181 | From the empty board: the result of the game with best play on both sides. |
| Sudoku.PutParity | cpp/4fun/Sudoku-Solver.cpp:66-67 | Whatever the board, toggling the three masks keeps each of them the digits that occur an odd number of times. |
| Sudoku.ConsistentMeans | cpp/4fun/Sudoku-Solver.cpp:9 | Without a clash no digit is twice in a row, a column or a block of rows 3a to 3a + 2 and columns 3b to 3b + 2, and the other way round; on a full board each digit is once in each. |
| Sudoku.SolutionMeans | cpp/4fun/Sudoku-Solver.cpp:15-18 | A solution is a full board with the givens in which each digit is once in every row, column and block. |
| Sudoku.OddAfterPut | cpp/4fun/Sudoku-Solver.cpp:21-25 | A digit put into a blank cell changes the parity of that digit in the three houses of the cell and no other. |
| Sudoku.UsedIsOdd | cpp/4fun/Sudoku-Solver.cpp:61-62 | A digit is in the used mask of a cell exactly when one of its houses has it an odd number of times. |
| Sudoku.UsedMeansClash | cpp/4fun/Sudoku-Solver.cpp:61-64 | On a consistent board a digit is in the used mask of a blank cell if and only if putting it there clashes. |
| Sudoku.PutConsistent | cpp/4fun/Sudoku-Solver.cpp:63-67 | Putting an unused digit keeps a consistent board consistent. |
| Sudoku.ToggledBack | cpp/4fun/Sudoku-Solver.cpp:71-72 | Toggling again restores the masks. |
| Sudoku.FillingPuts | cpp/4fun/Sudoku-Solver.cpp:63-75 | The fillings with a digit at the chosen cell are exactly those of the board with it there, provided that it is unused; so trying the unused digits misses none and accepts none too many. |
| Sudoku.FillingIsSolution | cpp/4fun/Sudoku-Solver.cpp:42-76 | On a consistent board a filling is a solution, and the other way round. |
| Sudoku.NoSolution | cpp/4fun/Sudoku-Solver.cpp:27-36 | A board that clashes already has no solution. |
| Sudoku.WrongExactlyWhen | cpp/4fun/Sudoku-Solver.cpp:15-18 | Taking a filling for a solution is wrong exactly on a clashing board that has a filling. |
| Sudoku.ClashingBoardFilled | cpp/4fun/Sudoku-Solver.cpp:27-36 | A solved grid with one digit changed and one cell blank: two equal digits in a row, and yet the masks let it be filled. |
| Sudoku.NextCell | cpp/4fun/Sudoku-Solver.cpp:31-35 | Reading in one cell keeps the masks the parities of what has been read. |
| Sudoku.SudokuSolver.Init | cpp/4fun/Sudoku-Solver.cpp:27-36 | Whatever the board, the masks become its parities. |
| Sudoku.SudokuSolver.BestCell | cpp/4fun/Sudoku-Solver.cpp:43-60 | The first of the blank cells with the fewest feasible digits, or none if the board is full. |
| Sudoku.SudokuSolver.SetDigit | cpp/4fun/Sudoku-Solver.cpp:21-25 | Toggles the digit in the masks of its row, column and box and in no other. |
| Sudoku.SudokuSolver.SolveFrom | cpp/4fun/Sudoku-Solver.cpp:42-76 | True exactly when there is a filling, and then the board is one; otherwise board and masks are restored. |
| Sudoku.SudokuSolver.Solve | cpp/4fun/Sudoku-Solver.cpp:15-18 | For every board: true if and only if the blank cells can be filled with digits that differ within every row, column and box and occur an even number of times among the givens there. On a consistent board that is a solution, with each digit once in every row, column and 3 by 3 block, and it is found if and only if there is one; the answer is wrong exactly when the givens clash and such a filling exists. |
| Calculators.DecimalConcat | python/calculator.py:43 | A number counts ten times as much for every digit after it. |
| Calculators.DecimalReadsBack | python/calculator.py:43 | A number written in decimal, the most significant digit first, is read as that number. |
| Calculators.RenderPlain | python/calculator.py:23-28 | Without spaces a written tree is this text, character by character. |
| Calculators.NestedWritten | python/calculator.py:23-30 | The text k-(m-n) in decimal is a tree worth just that. |
| Calculators.SumsAreRead | python/calculator.py:80-91 | So the texts m+n, m-n, -n and k-(m-n) in decimal are read as just that. |
| Calculators.ScanRender | python/calculator.py:33-47 | Tokenizing a written token list gives it back, with any number of spaces. |
| Calculators.WrittenAlternates | python/calculator.py:33-47 | A written tree never has two numbers next to each other, so spaces are not needed. |
| Calculators.RunSum | python/calculator.py:80-88 | Feeding a written tree to the stack where a sum may begin leaves exactly its value on top. |
| Calculators.RunOperand | python/calculator.py:50-72 | Feeding an operand comes down to pushing its value, parentheses or not. |
| Calculators.RunGroup | python/calculator.py:65-72 | A closing parenthesis replaces the group by its value. |
| Calculators.RunNegate | python/calculator.py:57-63 | A leading minus counts from 0. |
| Calculators.RunBinary | python/calculator.py:57-63 | An operator combines the number before it with the operand after it, from the left. |
| Calculators.GenTokens | python/calculator.py:33-47 | The loop computes the scanner that the round trip is proved for. |
| Calculators.Calculate | python/calculator.py:80-91 | For every expression tree and every spacing, calculating the written tree gives its value; no assertion fails on the way. So m+n, m-n, -n and k-(m-n), written in decimal, give what they say. |
| TopKs.LeastIsUnique | python/min_heap.py:70-71 | A collection, repetitions included, has one list of k least elements. |
| TopKs.RemoveThenPush | python/min_heap.py:22-40 | Removing an element and pushing it again is right exactly when it is in the heap, and not with one copy marked and another live. |
| TopKs.RemoveThenPushDistinct | python/min_heap.py:22-40 | With distinct elements and no stray marks: exactly when the element was live or marked at the removal. |
| TopKs.LostPush | python/min_heap.py:22-40 | Removing 5 from a heap that holds only 1 loses the 5 that is pushed afterwards. |
| TopKs.MinHeap.Remove | python/min_heap.py:22-23 | For any element: the live elements lose one copy, unless one is marked already; one that is not there leaves a mark. |
| TopKs.MinHeap.PopN | python/min_heap.py:25-33 | The n least live elements in order, or all of them; removed ones that come up are dropped for good. |
| TopKs.MinHeap.Push | python/min_heap.py:35-40 | For any element: the live elements gain one copy, unless a mark is waiting for an element that is not there, which swallows it. |
| TopKs.ListGrown | python/min_heap.py:48-55 | After an insertion that is one too long the greatest leaves the list, and the list is in order whether the heap takes it or not. |
| TopKs.ListShrunk | python/min_heap.py:62-68 | After a deletion the least live element of the heap is the one that is missing in the list. |
| TopKs.TopK.constructor | python/min_heap.py:43-46 | The list holds the k least of the given elements. |
| TopKs.TopK.Add | python/min_heap.py:48-55 | For any element, there or not: one copy more, exactly unless the greatest leaves the list while a stray mark waits for it; without stray marks nothing is ever lost. |
| TopKs.TopK.Remove | python/min_heap.py:57-68 | For any element: one copy less if it is there, exactly unless one copy is marked already and another live; a stray mark is left exactly when the element is neither in the list nor in the heap. |
| TopKs.TopK.GetTopK | python/min_heap.py:70-71 | Always the k least of the elements, in order. |
| LfuCaches.OneVictim | cpp/lfu_cache.cc:32-43 | There is at most one entry with the fewest uses that is also the oldest of those. |
| LfuCaches.KeyMoved | cpp/lfu_cache.cc:56-63 | Moving a key to the head of the next list keeps every list sorted by time of use. |
| LfuCaches.LowestMoved | cpp/lfu_cache.cc:62-67 | The lowest frequency stays exact: it rises by one exactly when its list empties. |
| LfuCaches.LastOfLowest | cpp/lfu_cache.cc:33-35 | The last key of the lowest list is the entry used least often, and of those the one used longest ago. |
| LfuCaches.LfuCache.IncrementAccess | cpp/lfu_cache.cc:56-68 | One more use of the key, now; nothing else changes. |
| LfuCaches.LfuCache.Get | cpp/lfu_cache.cc:70-79 | The value and one more use of the key, or nothing at all. |
| LfuCaches.LfuCache.Evict | cpp/lfu_cache.cc:32-43 | Exactly the victim leaves. |
| LfuCaches.LfuCache.Insert | cpp/lfu_cache.cc:45-53 | A new entry with one use. |
| LfuCaches.LfuCache.Put | cpp/lfu_cache.cc:26-54 | A known key gets the value and one more use; a new one comes in, and in a full cache the entry with the fewest uses, the oldest of those, leaves for it. |

## Left out

- Add: amounts of grants, uses, workers and projects are natural numbers; the Python code does not look at negative ones.
- ModifiedGraphEdges: asks for target * target below the sentinel, which every 32-bit target meets that is not negative; a negative one, which size_t turns into a huge one, is left out. The naturals of the model do not wrap, and the greatest sum the code forms, twice the sentinel and 1, is the greatest size_t.
- Run: Dijkstra's distances are naturals; the program relies on sums below the range of size_t.
- Distance: none means no walk that weighs less than the sentinel; a path of that weight or more counts as none, as in the code.
- AddEdge: in Floyd-Warshall, additions do not wrap; the sentinel is a third of the range, and the code relies on weights that leave the rest.
- KosarajuOn: takes the number of nodes from the edge list; the C++ code takes it as an argument that must not be larger. The info carried by edges is left out.
- GetMaxVisitableWebpages: for at least one page, since the maximum of no components is an error in the source.
- Append: values, increments and factors of Fancy are natural numbers, as its interface says; the least significant bit is a recursive function instead of a bit operation.
- GetMaxDamageDealt: over reals instead of floating point, with damages and healths not negative and products within the domain of the envelope; the deque has the fixed capacity of the source, so there are at most that many fighters.
- PopEarliestEnd: heaps are collections from which some least entry is taken, whatever the tie; the array layout of heapq and std::push_heap is not modelled, and the result holds for every pop order where the source has ties.
- Sort: sorted and std::sort are one stable insertion sort.
- Dnode: a link and its data are one object; the Python lists keep them apart.
- ConstructSegmentTree: the shape of a segment node is constant and only its coefficients change.
- DiningSafely: freedom from starvation is not claimed, since two neighbours can alternate for ever.
- GroupCommitCorrect: merge and commit functions are total; a commit that raises is not modelled.
- RingAllReduceCorrect: a condition variable wakes whoever can go on; spurious wake-ups are steps that change nothing and are left out.
- Threads step by whole sections under a lock; memory models below that are not part of this model, apart from the two cells of an addition in FencedTreeReduce.NoRace.
- Printing, logging, sleeping, random delays and copying of inputs are left out.
- CrawlAll: a result stands for its task's address and domain; what was fetched, errors and the post-processor are left out, and a consumer that stops early is not modelled. The overrides of the domain limit are not used by the code either.
- TreeSearch: wins are what isWinningMove says, which counts three pieces among the next three cells on both sides without asking that they touch the move; the table is that of one game.
- Toggle: a mask is a set of digits instead of an integer with bits.
- Calculate: digits are those of ASCII, and a failed assertion or an unknown character is one failure value.
- MinHeap: elements are integers instead of any ordered and hashable type, and Push takes one of them instead of a list.
- Put: a value is assigned where get gives out its address, and addresses of values are not modelled otherwise.
- The movie renting system above the top-k lists, the LRU caches, quick select, external sorting, meeting rooms, the skyline, numbers in English, the versioned graph, medians and the ninjas are not part of this model: each is a self-contained recipe with an easier guarantee than the ones here.
- The etcd and HTTP programs, the machine learning scripts and the C++ language demonstrations have no algorithm of their own to model.
- The LCS contours, spreadsheet, path resolution, snapshot set, subscript and heap recipes are not part of this model.
