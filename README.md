# Snake AI grid navigation, and the small game state machines beside it

This project models, in Dafny, the core of a collection of small Python games.

**Snake AI grid navigation.** The main part is the grid navigation the snake AIs use:
- the A* pathfinder, with its heap-ordered open list, closed set, parent links, flood-fill free-square count, most-free-space fallback and cached path;
- the boustrophedon "Hamiltonian" tour, with its cell-to-index map, its 70 % shortcut rule and its tail-reachability safety search;
- the hybrid switch between the two;
- the older self-contained `SnakeAI`, with its own A*, fixed move list and greedy walker;
- the eleven-flag state vector and collision test;
- the snake tick (`update`, `_move`, `calculate_reward`);
- the relative-turn action encoding;
- the bounded replay memory.

**Small state machines.** Beside it sit the day-15 coffee machine, the Pong scoreboard and paddle, and the Crossy Road player, obstacles, high-score tables and level counters.

**Coordinates and directions.** Cells are pixel coordinates, as in the source: a board cell is a multiple of `GRID_SIZE` = 20 inside the `WINDOW_SIZE` = 600 window, so the board has 30 x 30 cells. `Direction` iterates RIGHT, LEFT, UP, DOWN. Every neighbour scan uses the offset order down, right, up, left.

**How the game is read.** The game object each pathfinder reads (the snake, head first, the food and the heading) is passed in as parameters. Collision means "outside the window, or in `snake_pos[:-1]`". `find_shortcut_to_food` and the older `SnakeAI` block the whole snake, tail included.

**Quirks the model keeps:**
- The A* pathfinder's fresh path starts at the head, so the first move taken from it is `get_direction_to_position(head, head)`, which is UP.
- The tour is not closed: its last cell (0, 580) is not next to its first cell (0, 0), although the successor index wraps around to 0.
- The two direction mappers differ only on equal cells: UP in the newer pathfinders, DOWN in `SnakeAI`.
- The Crossy Road player always starts with 3 lives, whatever the difficulty's `lives`.

Modules:
- **Shared definitions:** `Grid` (cells, steps, walks, reachability), `Heapq` (the standard-library heap algorithm the open lists use).
- **Snake AI:** `AStar`, `Hamilton`, `Hybrid`, `Base`, `Agent`, `Memory`, `Game`, `SnakeAI`, and `SnakeAISearch` (the bookkeeping of `SnakeAI`'s search).
- **Coffee machine and Pong:** `CoffeeMachine`, `PongScoreBoard`, `PongPaddle`.
- **Crossy Road:** `CrossyConstants`, `CrossyObstacles`, `CrossyPlayer`, `CrossyScoring`, `CrossyGame`.
- **Generic helpers:** `Seqs`, `Text`, `Wrappers`.

## Model

| member | source | states |
|---|---|---|
| Grid.DirectionTo | snake_game/ai/pathfinding/astar.py:186-198 | towards an adjacent target the direction returned steps exactly onto it; from a cell to itself it is UP; hamilton.py carries an identical copy |
| Grid.DirectionToStep | snake_game/ai/pathfinding/astar.py:168-198 | for every direction d, the cell one step away in d is adjacent and the direction back to it is d (get_direction_to_position inverts the step of get_next_position) |
| Grid.Body | snake_game/ai/pathfinding/astar.py:120-122 | snake_pos[:-1] has one segment fewer than a non-empty snake and only segments of the snake; AStar.IsCollision, the model of is_collision, is membership in it |
| Heapq.HeapRootIsMin | snake_game/ai/pathfinding/astar.py:64 | in a heap no entry is smaller than the root |
| Heapq.SiftDown | snake_game/ai/pathfinding/astar.py:60 | heappush's sift keeps the entries (same multiset) and repairs a heap broken only at the new entry |
| Heapq.SiftUp | snake_game/ai/pathfinding/astar.py:64 | heappop's sift keeps the entries and turns a heap with a hole at the root back into a heap |
| Heapq.HeapPush | snake_game/ai/pathfinding/astar.py:96 | heappush adds exactly the new entry (multiset) and keeps the heap order; the older SnakeAI frontier pushes the same way |
| Heapq.HeapPop | snake_game/ai/pathfinding/astar.py:64 | heappop removes exactly the returned entry, keeps the heap order, and on a heap returns a smallest entry; the older SnakeAI frontier pops the same way |
| Heapq.RootBelowAll | snake_game/ai/pathfinding/astar.py:64 | every entry of a heap is at least the root, so heappop yields a lowest f |
| Heapq.PopMembers | snake_game/ai/pathfinding/astar.py:62-64 | after a pop, the popped entry came from the list, every other entry is still there, and nothing new appeared |
| Heapq.PushMembers | snake_game/ai/pathfinding/astar.py:95-96 | after a push, the list holds the old entries and the new one, and nothing else |
| AStar.Trail | snake_game/ai/pathfinding/astar.py:69-73 | the chain of parent positions is non-empty and ends at the node's own position |
| AStar.Reversed | snake_game/ai/pathfinding/astar.py:74 | path[::-1]: same length, entry i is entry len-1-i of the input |
| AStar.ManhattanDistance | snake_game/ai/pathfinding/astar.py:116-118 | the pixel Manhattan distance floor-divided by the grid size: d * 20 <= pixel distance < (d + 1) * 20 |
| AStar.StepsInWindowMembers | snake_game/ai/pathfinding/astar.py:100-114 | a cell is a listed neighbour exactly when it is the step in some listed direction and lies inside the window |
| AStar.OpenStepListed | snake_game/ai/pathfinding/astar.py:100-114 | every in-window step from a position is among its neighbours |
| AStar.NeighbourListFacts | snake_game/ai/pathfinding/astar.py:100-114 | neighbours are in the window and adjacent, and every in-window step is a neighbour |
| AStar.GetNeighbors | snake_game/ai/pathfinding/astar.py:100-114 | the loop returns the in-window steps in the order down, right, up, left: only in-window adjacent cells, and all of them |
| AStar.ShouldAddToOpen | snake_game/ai/pathfinding/astar.py:124-129 | the neighbour is added exactly when every open node at the same position has a strictly larger f |
| AStar.CountClosedPermutation | snake_game/ai/pathfinding/astar.py:62-65 | the number of open entries whose position is closed depends only on the entries, not on their heap order (part of the search's termination measure) |
| AStar.ChildOk | snake_game/ai/pathfinding/astar.py:83-92 | a child one open step from a node whose parent chain is a walk from the start again has such a chain |
| AStar.ReconstructPath | snake_game/ai/pathfinding/astar.py:69-74 | the reconstruction loop returns the parent chain from the start down to the node |
| AStar.ConsiderNeighbor | snake_game/ai/pathfinding/astar.py:78-96 | one neighbour: closed or colliding positions are skipped; otherwise the node with g = g + 1 and f = g + manhattan_distance is pushed unless an open node at that position already has an f no larger, so afterwards the position is closed, blocked, or open with a g of at most the parent's g + 1; no entry is lost |
| AStar.ExpandNode | snake_game/ai/pathfinding/astar.py:77-96 | the neighbour loop keeps every open entry, adds only scored nodes with a valid parent chain of g steps, leaves every open neighbour of the node closed or open with a g of at most the node's g + 1, keeps the heap order and keeps the number of open entries at closed positions |
| AStar.SearchStep | snake_game/ai/pathfinding/astar.py:62-96 | popping a non-goal node, closing it and expanding it preserves the search invariant (every open node carries a walk from the start, the goal is never closed, open neighbours of closed cells are closed or open) |
| AStar.SearchExhausted | snake_game/ai/pathfinding/astar.py:98 | when the open list runs dry the goal is unreachable |
| AStar.HeuristicAlongWalk | snake_game/ai/pathfinding/astar.py:116-118 | manhattan_distance to the goal drops by at most one per step of a walk (the estimate is consistent) |
| AStar.PopShortest | snake_game/ai/pathfinding/astar.py:62-65 | a node popped at a position not yet closed took no more steps than any walk from the start to that position |
| AStar.ShortestStep | snake_game/ai/pathfinding/astar.py:62-96 | popping, closing and expanding a node keeps the optimality bookkeeping: each closed position's first-closed g is a shortest walk length, and each open unclosed neighbour of a closed c has an open entry with g at most that of c plus 1 |
| AStar.FindPath | snake_game/ai/pathfinding/astar.py:50-98 | a non-empty result is a walk from start to end, each step to an adjacent in-window cell outside snake_pos[:-1], and no such walk is shorter; the result is [] exactly when end is unreachable; start == end gives [start] |
| AStar.PathNoShorterThanManhattan | snake_game/ai/pathfinding/astar.py:116-118 | a returned path takes at least manhattan_distance(start, end) steps |
| AStar.FreeRegionWithinBoard | snake_game/ai/pathfinding/astar.py:150-166 | from a board cell, the free region has at most 900 cells |
| AStar.FloodStatePush | snake_game/ai/pathfinding/astar.py:161-164 | queueing a new reachable cell keeps the flood fill's bookkeeping (queued cells visited and uncounted, no repeats, visited cells reachable) |
| AStar.EnqueueNeighbours | snake_game/ai/pathfinding/astar.py:160-164 | after the neighbour loop every open neighbour of the dequeued cell is visited, and the bookkeeping holds |
| AStar.CountFreeSquares | snake_game/ai/pathfinding/astar.py:150-166 | the count is the number of cells reachable from the start through in-window cells outside snake_pos[:-1], the start included, so at least 1 |
| AStar.GetNextPosition | snake_game/ai/pathfinding/astar.py:168-184 | None exactly when the step leaves the window; otherwise the step, and the direction back to it is the direction given |
| AStar.MovableDirections | snake_game/ai/pathfinding/astar.py:136-141 | only directions of the scan whose next cell is in the window and collision-free are kept |
| AStar.MovableDirectionsComplete | snake_game/ai/pathfinding/astar.py:136-141 | every scanned direction the head can step in is kept |
| AStar.MovableDirectionsSorted | snake_game/ai/pathfinding/astar.py:136-141 | the kept directions stay in enum order |
| AStar.WithFree | snake_game/ai/pathfinding/astar.py:140-141 | each kept direction is paired with the free squares counted after stepping in it |
| AStar.FirstMaxIsFirstMaximum | snake_game/ai/pathfinding/astar.py:145 | max(key=count) returns a pair whose count is the largest, and every earlier pair has a strictly smaller count |
| AStar.FirstMaxKeepsOrder | snake_game/ai/pathfinding/astar.py:145 | over directions in enum order, the first maximum beats every direction before it strictly and every other one weakly |
| AStar.MaxByCount | snake_game/ai/pathfinding/astar.py:145 | the scan that replaces only on a strictly larger count returns Python's max |
| AStar.SafeMovesStep | snake_game/ai/pathfinding/astar.py:136-141 | scanning one more direction appends its (direction, free squares) pair exactly when the head can step there |
| AStar.GetSafeDirection | snake_game/ai/pathfinding/astar.py:131-148 | the loop computes the safe direction (see the two lemmas below) |
| AStar.SafeDirectionKeepsHeading | snake_game/ai/pathfinding/astar.py:143-148 | with no open neighbour the current heading is returned |
| AStar.SafeDirectionIsRoomiest | snake_game/ai/pathfinding/astar.py:131-148 | with some open direction, the result is open, has at least as many free squares as any open direction, and strictly more than any open direction earlier in enum order |
| AStar.AStarPathfinder.constructor | snake_game/ai/pathfinding/astar.py:22-27 | a new pathfinder has no cached path |
| AStar.AStarPathfinder.GetNextMove | snake_game/ai/pathfinding/astar.py:29-48 | a cached path is popped and the move heads for its first cell; without one, a shortest walk to the food, else a shortest walk to the tail, is cached minus its first cell (the head), and the move is UP; with neither, the safe direction |
| Hamilton.ScaledIsGridCell | snake_game/ai/pathfinding/hamilton.py:26 | (x * 20, y * 20) for a column and row of the board is a board cell, and dividing by 20 gives x and y back |
| Hamilton.Tour | snake_game/ai/pathfinding/hamilton.py:18-34 | the tour has 900 = width * height cells |
| Hamilton.TourRows | snake_game/ai/pathfinding/hamilton.py:23-31 | row y of the tour runs left to right when y is even and right to left when y is odd |
| Hamilton.TourIndexOfCell | snake_game/ai/pathfinding/hamilton.py:23-31 | every tour position holds a board cell, and that cell's index is the position |
| Hamilton.TourCellOfIndex | snake_game/ai/pathfinding/hamilton.py:23-31 | every board cell is on the tour at its index |
| Hamilton.TourDistinct | snake_game/ai/pathfinding/hamilton.py:23-31 | no cell appears twice on the tour |
| Hamilton.TourCoversBoard | snake_game/ai/pathfinding/hamilton.py:18-31 | a cell is on the tour exactly when it is a board cell |
| Hamilton.CellsMakeTour | snake_game/ai/pathfinding/hamilton.py:21-34 | the rows built in order make up the tour, without repeats |
| Hamilton.TourAdjacent | snake_game/ai/pathfinding/hamilton.py:23-31 | consecutive tour cells are one grid step apart |
| Hamilton.TourStepAdjacent | snake_game/ai/pathfinding/hamilton.py:23-31 | within a row, or from the end of a row to the start of the next, the next tour cell is adjacent |
| Hamilton.TourStepAlongRow | snake_game/ai/pathfinding/hamilton.py:25-30 | inside a row consecutive cells are adjacent in either direction of travel |
| Hamilton.TourStepDownRow | snake_game/ai/pathfinding/hamilton.py:29-31 | the last cell of a row sits directly above the first cell of the next |
| Hamilton.TourNotClosed | snake_game/ai/pathfinding/hamilton.py:33-34 | contrary to the comment, the last cell (0, 580) is not adjacent to the first (0, 0) |
| Hamilton.IndexMap | snake_game/ai/pathfinding/hamilton.py:37 | the dict comprehension maps each cycle cell to its index and has no other key |
| Hamilton.IndexLookup | snake_game/ai/pathfinding/hamilton.py:37 | a lookup in the tour's index succeeds exactly on board cells, and it gives the cell's tour index |
| Hamilton.CanTakeShortcutThreshold | snake_game/ai/pathfinding/hamilton.py:61-65 | len(snake) < 0.7 * 900 holds exactly below 630 segments |
| Hamilton.FirstShortcutFound | snake_game/ai/pathfinding/hamilton.py:73-93 | a shortcut found is the step in some direction of the scan that qualifies, and no earlier direction qualifies |
| Hamilton.FirstShortcutNone | snake_game/ai/pathfinding/hamilton.py:73-95 | when nothing is found, no scanned neighbour qualifies |
| Hamilton.TourMoveWithoutShortcut | snake_game/ai/pathfinding/hamilton.py:44-59 | without a shortcut the move heads for cycle[(i + 1) % len], with i the head's index, or 0 when the head is not in the map |
| Hamilton.TourMoveFollowsTour | snake_game/ai/pathfinding/hamilton.py:55-59 | without a shortcut a head at tour position i (not the last) steps onto tour cell i + 1 |
| Hamilton.TourMoveOffBoard | snake_game/ai/pathfinding/hamilton.py:44 | without a shortcut a head off the tour heads for the tour's second cell (20, 0) |
| Hamilton.TourMoveAtLastCell | snake_game/ai/pathfinding/hamilton.py:56-59 | at the last tour cell the successor wraps to (0, 0), which is not adjacent: the move is UP, onto (0, 560) |
| Hamilton.ShortcutStep | snake_game/ai/pathfinding/hamilton.py:47-53 | a shortcut is taken only while the snake is short and the food is indexed, and the move is the direction that steps onto it |
| Hamilton.TourMoveShortcut | snake_game/ai/pathfinding/hamilton.py:47-95 | a shortcut is an adjacent in-window board cell off the snake (tail included), strictly nearer the food counted forward along the tour, from which the tail is reachable, and the move steps onto it |
| Hamilton.NoShortcutMeansNoneQualifies | snake_game/ai/pathfinding/hamilton.py:67-95 | when shortcuts are allowed but none is taken, no neighbour of the head meets all the shortcut conditions |
| Hamilton.HamiltonianPathfinder.constructor | snake_game/ai/pathfinding/hamilton.py:6-16 | a new pathfinder holds the tour and its index |
| Hamilton.HamiltonianPathfinder.BuildRow | snake_game/ai/pathfinding/hamilton.py:24-30 | one row of 30 cells, reversed on odd rows, is the next stretch of the tour |
| Hamilton.HamiltonianPathfinder.GenerateCycle | snake_game/ai/pathfinding/hamilton.py:18-37 | the cycle is the boustrophedon tour and position_to_index maps every cycle cell to its index |
| Hamilton.HamiltonianPathfinder.VisitNeighbours | snake_game/ai/pathfinding/hamilton.py:116-125 | the neighbour loop visits every open neighbour and keeps the search bookkeeping |
| Hamilton.HamiltonianPathfinder.IsSafeMove | snake_game/ai/pathfinding/hamilton.py:103-127 | true exactly when the tail is reachable from the position through in-window cells outside snake_pos[:-1] |
| Hamilton.HamiltonianPathfinder.FindShortcutToFood | snake_game/ai/pathfinding/hamilton.py:67-95 | the result is the first neighbour, in offset order, that qualifies as a shortcut (see FirstShortcutFound and TourMoveShortcut) |
| Hamilton.HamiltonianPathfinder.GetNextMove | snake_game/ai/pathfinding/hamilton.py:39-59 | the move is the shortcut rule's direction (see the lemmas on TourMove above) |
| Hybrid.HybridPathfinder.constructor | snake_game/ai/pathfinding/hybrid.py:9-13 | a new hybrid starts with use_astar set and an indexed tour |
| Hybrid.HybridPathfinder.GetNextMove | snake_game/ai/pathfinding/hybrid.py:15-42 | use_astar ends true exactly when coverage is not above 0.5 and the food is reachable; then the move heads for path[1] (path[0] for a one-cell path) of a shortest walk from the head to the food avoiding snake_pos[:-1], steps onto an open cell unless the head is on the food, and is UP when it is; otherwise the result is the Hamiltonian move |
| Base.Clockwise | snake_game/ai/base.py:48-58 | turning right changes the heading and turning left undoes it |
| Base.IsCollision | snake_game/ai/base.py:72-85 | a collision exactly when the point is outside the window or in snake_pos[:-1] |
| Base.ManhattanIsMetric | snake_game/ai/base.py:87-89 | the distance is symmetric, zero exactly for equal points, and obeys the triangle inequality |
| Base.GetState | snake_game/ai/base.py:24-70 | exactly eleven flags |
| Base.StateDanger | snake_game/ai/base.py:41-58 | danger straight, right and left are the collision tests one step ahead, clockwise and counter-clockwise |
| Base.StateHeading | snake_game/ai/base.py:35-39 | flags 3 to 6 are heading LEFT, RIGHT, UP and DOWN |
| Base.StateHeadingOneHot | snake_game/ai/base.py:61 | exactly one heading flag is set |
| Base.HeadingFlagsOneHot | snake_game/ai/base.py:61 | four flags set from a single heading have exactly one set |
| Base.StateFood | snake_game/ai/base.py:63-67 | flag 7 is set exactly when the food is left of the head, 8 right of it, 9 above it and 10 below it (y grows downwards); left and right are never both set, nor up and down; one of a pair is set exactly when the food is off the head's column (row) |
| Agent.ClockIndex | snake_game/ai/reinforcement/agent.py:218-219 | clock_wise.index finds the heading in the clockwise list |
| Agent.ActionToDirection | snake_game/ai/reinforcement/agent.py:215-231 | [1, 0, 0] keeps the heading, [0, 1, 0] turns clockwise, anything else turns counter-clockwise |
| Agent.GetAction | snake_game/ai/reinforcement/agent.py:194-213 | three entries, exactly one of them 1, at the explored or the predicted index |
| Memory.Recent | snake_game/ai/reinforcement/memory.py:11 | a maxlen deque holds the most recent capacity elements: at most capacity, all of them while they fit, always a suffix |
| Memory.RecentPush | snake_game/ai/reinforcement/memory.py:11-16 | pushing onto the window appends, then drops the oldest element on overflow |
| Memory.ReplayMemory.constructor | snake_game/ai/reinforcement/memory.py:9-11 | a new memory is empty with the given capacity |
| Memory.ReplayMemory.Push | snake_game/ai/reinforcement/memory.py:13-35 | below capacity the transition is appended; at capacity the oldest is dropped and the length kept; the memory is always the last capacity transitions pushed; append is the same method |
| Memory.ReplayMemory.Length | snake_game/ai/reinforcement/memory.py:30-32 | len never exceeds capacity and counts every push while they fit |
| Game.FreeCellExists | snake_game/core/game.py:78-84 | while the snake is shorter than the board some board cell is free, so the rejection loop can stop |
| Game.GenerateFood | snake_game/core/game.py:78-84 | the food is a grid-aligned in-window cell off the snake |
| Game.SnakeGame.constructor | snake_game/core/game.py:14-50 | a new game is on the title screen with no agent attached, at the initial speed, with a one-cell snake at the centre heading RIGHT, score 0, not over |
| Game.SnakeGame.StartGame | snake_game/core/game.py:92-95 | "Start Game" switches to PLAYING and resets the game; agent and speed unchanged |
| Game.SnakeGame.StartAIGame | snake_game/core/game.py:139-158 | an AI-menu choice switches to PLAYING and resets the game; only the reinforcement-learning choice attaches an agent |
| Game.SnakeGame.ResetGame | snake_game/core/game.py:52-60 | a one-cell snake at the grid centre heading RIGHT, food off the snake, score 0, not over, no previous food distance; screen, mode and speed unchanged |
| Game.SnakeGame.Advance | snake_game/core/game.py:242-277 | a colliding head ends the game and changes neither snake, score nor food; otherwise the new head is inserted one step ahead and the snake grows by eating (score + 1) or drops its tail |
| Game.SnakeGame.Update | snake_game/core/game.py:232-277 | nothing happens off the PLAYING screen or after game over; an AI move replaces the heading; then the tick of Advance; eating in manual mode sets the speed to min(MAX_SPEED, INITIAL_SPEED + score // 5) |
| Game.SnakeGame.CalculateReward | snake_game/core/game.py:478-493 | death first, then eating, each leaving the stored distance alone; otherwise the new distance is stored and the reward is REWARD_CLOSER exactly when there was no previous distance or the new one is strictly smaller, else REWARD_FARTHER |
| Game.SnakeGame.Move | snake_game/core/game.py:495-543 | in AI mode the action turns the heading; a collision returns the death reward and done, sets game over and changes neither snake, score, food nor stored distance; otherwise the new head is one step ahead; eating gives the eat reward, score + 1 and the old snake behind the new head, with the stored distance kept; a plain step drops the tail, keeps the food, stores the new pixel distance to the food and rewards CLOSER exactly when there was none before or it shrank, else FARTHER |
| SnakeAI.Follow | snake_game/snake_ai.py:84-87 | the cells visited by a list of moves: one more than the moves, starting at the start |
| SnakeAI.FollowStep | snake_game/snake_ai.py:84-87 | each visited cell is the previous one moved by the next move |
| SnakeAI.WalkCons | snake_game/snake_ai.py:80-87 | putting the step from the parent in front of a walk from a cell gives a walk from the parent |
| SnakeAI.ValidStepsMembers | snake_game/snake_ai.py:26-39 | a cell is kept exactly when it is the step in a scanned direction and lies in the window off the snake |
| SnakeAI.ValidNeighbours | snake_game/snake_ai.py:26-39 | the valid neighbours are exactly the adjacent in-window cells off the snake |
| SnakeAI.ValidNeighboursAll | snake_game/snake_ai.py:26-39 | the same, for all cells at once |
| SnakeAI.NeighbourList | snake_game/snake_ai.py:29-38 | the valid neighbours are the open steps down, right, up and left, in that order |
| SnakeAI.GetValidNeighbors | snake_game/snake_ai.py:26-39 | the loop returns the open steps in offset order |
| SnakeAI.PositionToDirection | snake_game/snake_ai.py:41-52 | towards an adjacent cell the direction steps exactly onto it; for the same cell it is DOWN |
| SnakeAI.DirectionMappersDisagree | snake_game/snake_ai.py:41-52 | this mapper and get_direction_to_position differ exactly on equal cells |
| SnakeAI.RelaxOne | snake_game/snake_ai.py:69-75 | an improving neighbour gets cost + 1, a frontier entry with priority cost + pixel distance, and current as parent; otherwise nothing changes |
| SnakeAI.RelaxNeighbours | snake_game/snake_ai.py:68-75 | after the neighbour loop every valid neighbour of current has a cost, and the search maps stay well formed |
| SnakeAI.TraceBack | snake_game/snake_ai.py:80-87 | one step of reconstruction extends the walk to the goal backwards by the parent |
| SnakeAI.AStarPathfinding | snake_game/snake_ai.py:54-88 | no moves exactly when the head is on the food or the food is unreachable through cells off the snake; otherwise the moves walk from the head to the food, each step onto a valid neighbour |
| SnakeAI.TourMoves | snake_game/snake_ai.py:90-110 | the move list has 30 * 30 - 1 = 899 moves |
| SnakeAI.HeadingInRow | snake_game/snake_ai.py:96-108 | in row y the moves are 29 RIGHTs (even y) or LEFTs (odd y) followed by DOWN |
| SnakeAI.HamiltonianCycle | snake_game/snake_ai.py:90-110 | the nested loops emit exactly that list |
| SnakeAI.TourStep | snake_game/snake_ai.py:96-108 | each move leads from one tour cell to the next |
| SnakeAI.TourTrace | snake_game/snake_ai.py:90-110 | the k-th cell visited along the move list is the k-th cell of the tour |
| SnakeAI.HamiltonianCycleCoversBoard | snake_game/snake_ai.py:90-110 | followed from (0, 0) the list visits exactly the Hamiltonian pathfinder's tour: every board cell once, ending at a cell not adjacent to (0, 0) |
| SnakeAI.Closest | snake_game/snake_ai.py:123-124 | min(key=distance) returns a listed cell no farther from the goal than any other |
| SnakeAI.ClosestIsFirst | snake_game/snake_ai.py:123-124 | and every listed cell before it is strictly farther |
| SnakeAI.GreedyNext | snake_game/snake_ai.py:117-127 | one turn of the loop as written: None exactly without valid neighbours, otherwise an adjacent open cell |
| SnakeAI.GreedyLeavesHead | snake_game/snake_ai.py:117-127 | from head (0, 40) of snake [(0, 40), (0, 20)] with food (0, 0) the walk steps to (0, 60) |
| SnakeAI.GreedyDown | snake_game/snake_ai.py:117-127 | then to (0, 80) |
| SnakeAI.GreedyUp | snake_game/snake_ai.py:117-127 | then back to (0, 60) |
| SnakeAI.GreedyAfterStep | snake_game/snake_ai.py:117-127 | n turns of the loop from a cell that is not the food are one turn followed by n - 1 more from the cell it chose |
| SnakeAI.GreedyStaysInSwing | snake_game/snake_ai.py:117-127 | two cells the loop sends to each other keep it there for ever |
| SnakeAI.GreedyNeverStops | snake_game/snake_ai.py:117-127 | so from that head the loop as written never reaches the food and never stops |
| SnakeAI.GreedyChoicesSnoc | snake_game/snake_ai.py:118-127 | appending the first closest unwalked neighbour extends a walk of greedy choices |
| SnakeAI.GreedyExtend | snake_game/snake_ai.py:118-127 | that step is adjacent, in the window and new, and keeps the walk a repeat-free walk of greedy choices |
| SnakeAI.GreedyPathfinding | snake_game/snake_ai.py:112-129 | the corrected walk: its moves walk from the head through cells off the snake, never repeat a cell, each to the first closest open neighbour, and end on the food or where none is left |
| SnakeAI.SnakeAI.constructor | snake_game/snake_ai.py:6-10 | a new planner has the given algorithm and no moves |
| SnakeAI.SnakeAI.GetNextMove | snake_game/snake_ai.py:12-21 | with moves left the first is handed out; with none a new plan fitting the algorithm is made and its first move handed out, or None when it is empty |
| SnakeAISearch.ItemsAfterPush | snake_game/snake_ai.py:74 | a push adds exactly its cell to the frontier's cells |
| SnakeAISearch.ItemsAfterPop | snake_game/snake_ai.py:63 | a pop removes at most its own cell from the frontier's cells |
| SnakeAISearch.CostSumLower | snake_game/snake_ai.py:71-72 | lowering one recorded cost lowers the sum of costs (part of the loop's termination measure) |
| SnakeAISearch.ExploredAfterLower | snake_game/snake_ai.py:71-75 | a cheaper cost and a new parent keep every parent link a cheaper adjacent open cell |
| SnakeAISearch.NewCost | snake_game/snake_ai.py:71-75 | a first cost and a parent for a new cell keep the maps well formed |
| SnakeAISearch.ProgressRecord | snake_game/snake_ai.py:71-75 | recording a neighbour keeps the loop's progress invariant and only adds keys |
| SnakeAISearch.SearchStart | snake_game/snake_ai.py:58-60 | the initial frontier and maps satisfy the search invariant |
| SnakeAISearch.PendingAfterExpansion | snake_game/snake_ai.py:62-75 | after a pop and relaxation every costed cell off the frontier is expanded |
| SnakeAISearch.SearchMeasure | snake_game/snake_ai.py:62-75 | each turn lowers (uncosted cells, cost sum, frontier length) lexicographically, so the loop ends |
| SnakeAISearch.ExhaustedSearch | snake_game/snake_ai.py:62-83 | a frontier that runs dry without costing the goal means the goal is unreachable |
| CoffeeMachine.Lookup | day_15/coffee_machine.py:25-31 | a found item is on the menu under that name; None exactly when no item has it |
| CoffeeMachine.FindDrinkOnMenu | day_15/coffee_machine.py:14-31 | espresso, latte and cappuccino are found with their recipes; every other name gives None |
| CoffeeMachine.Names | day_15/coffee_machine.py:23 | menu.keys(): the item names in menu order |
| CoffeeMachine.GetItemsLists | day_15/coffee_machine.py:21-23 | get_items is "espresso/latte/cappuccino", and splitting it at '/' gives the three names back |
| CoffeeMachine.CoffeeMaker.constructor | day_15/coffee_machine.py:74-79 | water 300, milk 200, coffee 100 |
| CoffeeMachine.CoffeeMaker.IsResourceSufficient | day_15/coffee_machine.py:87-93 | true exactly when every ingredient amount is at most its stock |
| CoffeeMachine.CoffeeMaker.MakeCoffee | day_15/coffee_machine.py:95-98 | the new stock is the old one with each ingredient lowered by exactly its recipe amount, and no key is added or removed |
| CoffeeMachine.DeductKeepsStock | day_15/coffee_machine.py:120-122 | deducting a drink the stock covers leaves no ingredient negative |
| CoffeeMachine.CoffeeMachineProgram.constructor | day_15/coffee_machine.py:103-106 | a new program has the initial stock |
| CoffeeMachine.CoffeeMachineProgram.Handle | day_15/coffee_machine.py:110-122 | "off" stops; a drink is made exactly when it is on the menu, in stock and paid for, and then the stock drops by its recipe; otherwise the stock is unchanged and never negative; the new stock is one step of the stock's fold over choices |
| CoffeeMachine.CoffeeMachineProgram.Run | day_15/coffee_machine.py:108-122 | choices are handled until "off" or the end of input, no earlier choice was "off", the stock never grows and never goes negative, and the final stock is the fold of the handled choices |
| CoffeeMachine.AfterChoicesUsed | day_15/coffee_machine.py:108-122 | over any sequence of choices, each stock stays non-negative and drops by exactly the recipe amounts of the drinks made |
| PongScoreBoard.Winner | pong_game/scoreBoard.py:83-97 | 1 exactly when player 1 has reached the winning score, 2 exactly when only player 2 has, 0 when neither has; ScoreBoard.GetWinner, the model of get_winner, applies it to the current scores |
| PongScoreBoard.WinnerStays | pong_game/scoreBoard.py:83-97 | once there is a winner, more points keep one, and a win of player 1 stays player 1's |
| PongScoreBoard.ScoreBoard.constructor | pong_game/scoreBoard.py:4-15 | both scores start at 0 |
| PongScoreBoard.ScoreBoard.UpdateScore | pong_game/scoreBoard.py:32-43 | the points go to player 1 or 2 only; any other player number changes nothing |
| PongScoreBoard.ScoreBoard.ResetScores | pong_game/scoreBoard.py:78-81 | both scores are 0 |
| PongPaddle.Clamp | pong_game/paddle.py:44-48 | an on-screen top is kept; a paddle no taller than the screen ends fully on it, a top above 0 going to 0; a bottom below the screen is moved up to the screen's height |
| PongPaddle.ClampIdempotent | pong_game/paddle.py:44-48 | clamping twice is clamping once |
| PongPaddle.Paddle.constructor | pong_game/paddle.py:4-20 | the given rectangle and speed, score 0, velocity 0 |
| PongPaddle.Paddle.MoveUp | pong_game/paddle.py:22-24 | velocity is -speed and nothing else changes |
| PongPaddle.Paddle.MoveDown | pong_game/paddle.py:26-28 | velocity is speed and nothing else changes |
| PongPaddle.Paddle.Stop | pong_game/paddle.py:30-32 | velocity is 0 and nothing else changes |
| PongPaddle.Paddle.Update | pong_game/paddle.py:34-48 | y moves by the velocity and is then clamped; a paddle no taller than the screen ends fully on it; x, size, speed and velocity are unchanged |
| CrossyObstacles.Car.constructor | crossy_road/obstacles.py:6-13 | a new car is at x = SCREEN_WIDTH in its lane |
| CrossyObstacles.Car.Update | crossy_road/obstacles.py:15-18 | x drops by the speed; the car stays alive exactly while it was alive and its right edge is not left of 0 |
| CrossyObstacles.Log.constructor | crossy_road/obstacles.py:21-34 | the speed is +speed moving right and -speed otherwise; the log starts at -LOG_WIDTH or SCREEN_WIDTH, just off the screen |
| CrossyObstacles.Log.Update | crossy_road/obstacles.py:36-41 | x moves by the signed speed; the log is removed exactly when it is past the edge it travels towards |
| CrossyObstacles.GoneIsOffScreen | crossy_road/obstacles.py:26-41 | a removed log no longer overlaps the screen, and a new log is not removed at once |
| CrossyPlayer.MoveStep | crossy_road/player.py:30-39 | move as written: "up" with top > 0 climbs one hop and scores 10, and at top <= 0 changes nothing; "down" with bottom < SCREEN_HEIGHT, "left" with left > 0 and "right" with right < SCREEN_WIDTH hop by MOVE_DISTANCE without scoring, and otherwise change nothing; an unknown direction changes nothing |
| CrossyPlayer.MoveStepLeavesScreen | crossy_road/player.py:34-35 | as written, "down" from the start puts the player at y = 600, off the screen |
| CrossyPlayer.SafeMoveStaysOnScreen | crossy_road/player.py:30-39 | the corrected move keeps an on-screen player on the screen, and agrees with move whenever move stays on it |
| CrossyPlayer.UpHops | crossy_road/player.py:31-33 | each of the first nine hops up from the start climbs 60 pixels and scores 10 |
| CrossyPlayer.FinishLineAfterNineHops | crossy_road/player.py:61-62 | nine hops up reach the finish line worth 90 points, and fewer do not reach it |
| CrossyPlayer.Player.constructor | crossy_road/player.py:5-23 | 3 lives, score and time bonus 0, at the start, on no log |
| CrossyPlayer.Player.GoToStart | crossy_road/player.py:25-28 | at (380, 540), on no log, lives and score unchanged |
| CrossyPlayer.Player.Move | crossy_road/player.py:30-39 | the corrected move: at most one hop, 10 points for a hop up, and an on-screen player stays on the screen |
| CrossyPlayer.Player.Die | crossy_road/player.py:52-59 | one life fewer and on no log; true exactly when no life is left; with lives left the player is back at the start, otherwise where it died |
| CrossyPlayer.Player.Update | crossy_road/player.py:41-50 | on a log, x drifts by the log's speed; a drift off the screen is undone and the player dies; off a log nothing changes |
| CrossyPlayer.Player.IsAtFinishLine | crossy_road/player.py:61-62 | true exactly when top <= PLAYER_SIZE |
| CrossyPlayer.Player.GetScore | crossy_road/player.py:64-65 | move points plus time bonus, never below the move points for a non-negative bonus |
| CrossyScoring.LoadHighScores | crossy_road/scoring.py:11-16 | a missing or unreadable file gives empty easy, medium and hard tables; otherwise the saved tables |
| CrossyScoring.TimeBonus | crossy_road/scoring.py:24 | 0 after five minutes; otherwise ten points per second left, truncated (in exact arithmetic); never negative and at most 3000 |
| CrossyScoring.InsertAfterEqual | crossy_road/scoring.py:33-34 | the insertion has one entry more |
| CrossyScoring.InsertSorted | crossy_road/scoring.py:33-34 | insertion into a sorted table keeps it sorted and adds exactly the new entry |
| CrossyScoring.InsertPosition | crossy_road/scoring.py:33-34 | the new entry lands after the entries scoring at least as much, before the first scoring less |
| CrossyScoring.InsertStable | crossy_road/scoring.py:33-34 | the new entry comes after every entry of its own score |
| CrossyScoring.SortByScore | crossy_road/scoring.py:34 | the sort keeps the length |
| CrossyScoring.SortByScoreSorts | crossy_road/scoring.py:34 | the sort yields a permutation sorted by score, highest first |
| CrossyScoring.SortStable | crossy_road/scoring.py:34 | entries of equal score keep their order, as Python's stable sort with reverse=True does |
| CrossyScoring.SortSorted | crossy_road/scoring.py:34 | sorting a sorted table changes nothing |
| CrossyScoring.Top | crossy_road/scoring.py:35 | the slice [:10]: a prefix of at most ten entries, the whole table when it is shorter |
| CrossyScoring.AddToSortedTable | crossy_road/scoring.py:33-35 | appending, sorting and cutting a sorted table is the cut of the table with the entry inserted after the entries scoring at least as much |
| CrossyScoring.Lines | crossy_road/scoring.py:48-49 | one line per entry |
| CrossyScoring.LinesNumbered | crossy_road/scoring.py:48-49 | line j shows entry j under the number first + j |
| CrossyScoring.LineUnbroken | crossy_road/scoring.py:49 | a line holds no line break when the name and date hold none |
| CrossyScoring.ListingLines | crossy_road/scoring.py:45-50 | the listing splits into the title, a blank line, the numbered lines and the empty rest |
| CrossyScoring.ScoreManager.constructor | crossy_road/scoring.py:6-9 | the loaded tables, current score 0, the start time |
| CrossyScoring.ScoreManager.AddScore | crossy_road/scoring.py:22-38 | the final score is the game score plus the time bonus, never less than the game score; the table of that difficulty becomes the top ten of the sorted table with the new entry, sorted and at most ten long; other tables are unchanged |
| CrossyScoring.ScoreManager.FormatHighScores | crossy_road/scoring.py:45-50 | the title, a blank line and one numbered line for each of the first ten entries; an unknown difficulty lists nothing |
| CrossyGame.LevelBonusClosed | crossy_road/main.py:121-125 | the score after n level-ups from level 1 is 50 (n + 1)(n + 2) - 100 |
| CrossyGame.Game.constructor | crossy_road/main.py:10-21 | a new game is reset to medium: car speed 5, 3 lives, level 1, score 0, not over, with a new player |
| CrossyGame.Game.ResetGame | crossy_road/main.py:23-46 | car speed and lives from the difficulty table, level 1, score 0, not over, a new player with 3 lives at the start |
| CrossyGame.Game.LevelUp | crossy_road/main.py:121-125 | level + 1, score + 100 times the new level, car speed + the difficulty's increment, the same player back at the start with lives and points kept |

## Left out

- Rendering, sound, menus, keyboard handling and the `run` loops are not modelled. Nor are the turtle scripts, the sqlite high-score tables, plotting and checkpoint files: they are UI and I/O.
- The torch network, `QTrainer`, epsilon decay and the agent's training statistics are not modelled: they are foreign code and floating point.
- Agent.GetAction: the exploration coin and both index draws are inputs.
- `ReplayMemory.sample` is left out: it is a random draw.
- Memory.Transition holds the reward as an integer rather than a float.
- Base: the `AIDifficulty` enum and the abstract `get_next_move` carry no behaviour.
- Base.GetState: its own contract gives only the length. StateDanger, StateHeading, StateHeadingOneHot and StateFood say what the flags mean.
- Both pathfinders import `Direction` from `core/constants.py`, and `core/constants.py` is not part of this model. The enum order (RIGHT, LEFT, UP, DOWN) and the sizes come from `snake_game/constants.py`.
- SnakeAI.AStarPathfinding: states that the moves walk from the head to the food, not that their number equals `cost_so_far[goal]` or that the walk is shortest. The priority adds the pixel Manhattan distance (20 per grid step) to unit step costs, so a cell can be expanded before its cheapest cost is known. Its cost is then lowered later, and the search stops when the food is popped, possibly before that cell is expanded again. The `came_from` chain can then be shorter than the food's recorded cost, and a cheaper path can exist. Each link leads to a cell of smaller recorded cost, so the count is at most `cost_so_far[goal]`. That bound is not stated, because `cost_so_far` is local to the search.
- SnakeAI.GreedyPathfinding models the corrected loop (see Findings). The loop as written is GreedyNext with GreedyAfter.
- SnakeAI.SnakeAI.GetNextMove: an algorithm name other than "a_star" and "hamiltonian" becomes the Greedy case of a datatype.
- Hybrid.HybridPathfinder.GetNextMove: requires width * height to be non-zero; the source would raise ZeroDivisionError there. The grid dimensions are parameters, because the game object never defines `width` and `height`.
- Game.GenerateFood: the random rejection loop becomes a nondeterministic choice of a free board cell. It requires a free cell, because the source loops for ever on a full board.
- Game.SnakeGame.Advance: requires the snake to be at least two cells short of filling the board, so that food can be placed after eating. The source would also step without eating on an almost full board.
- Game.SnakeGame.Update: has the same length requirement as Advance.
- Game.SnakeGame.Move: has the same length requirement as Advance.
- Game.SnakeGame.ResetGame: the training statistics of `reset_game` are left out. These are the game count, the record and the mean scores.
- Game.SnakeGame.StartAIGame: the A*, Hamiltonian and hybrid menu choices attach no agent, as in the source, where those lines are commented out. The game then runs in manual mode. The settings and pause menus are not modelled.
- Game.SnakeGame.CalculateReward: the rewards are the integers 10, -10, 1 and -1 rather than floats. `float('inf')` is held as None.
- CoffeeMachine: `MoneyMachine` is not modelled: it counts coins as floats and reads `input()`. Payment success is an input to Handle and Run, and the typed choices are Run's input sequence. Prices are held in cents. The reports and printed messages are left out.
- CrossyScoring.TimeBonus: the elapsed time is a real and the arithmetic is exact, not double-precision floating point. Python's rounding of `(300 - elapsed) * 10` can make the bonus one point higher at some elapsed values (for instance, at the exact value of the double nearest 197.3 the exact product lies just below 1027 and floors to 1026, while Python's rounded product is 1027.0). The same holds for the final score of ScoreManager.AddScore.
- CrossyScoring.ScoreManager.AddScore: requires the difficulty to have a table, where the source raises KeyError. The clock and the date are parameters, and `get_player_name` is the constant "Player". `save_high_scores` is left out: it is file I/O.
- CrossyScoring.LoadHighScores: reading the file becomes an Option parameter, None for a missing or corrupt file.
- CrossyScoring.InsertAfterEqual: its own contract gives only the length. InsertPosition, InsertSorted and InsertStable say where the entry goes.
- CrossyScoring.SortByScore: its own contract gives only the length. SortByScoreSorts, SortStable and SortSorted carry sortedness, permutation and stability.
- CrossyScoring.Lines: its own contract gives only the length. LinesNumbered and LineUnbroken say what each line is.
- CrossyPlayer.Player.Move: models the corrected edge test (see Findings). The move as written is MoveStep.
- CrossyGame: these are left out because they are pygame sprites or randomness: the sprite groups, `setup_water_lanes`, the random car and log spawning of `create_car` and `create_log`, `check_collisions`, and the event loop.
- CrossyObstacles: the car colours and the `Water` sprite only draw.
- PongPaddle.Paddle: the pygame `Rect` becomes integer fields, and `draw` is left out.
- PongScoreBoard.ScoreBoard: font, colours, layout and `draw` are left out.

## Findings

| source | as written | input that shows it | evidently intended | confidence | as-written member | corrected member |
|---|---|---|---|---|---|---|
| snake_game/snake_ai.py:112-129 | `greedy_pathfinding` loops until it reaches the food, always moving to the closest valid neighbour; cells already walked are never blocked | snake [(0, 40), (0, 20)], food (0, 0): the walk steps to (0, 60), then swings between (0, 80) and (0, 60) for ever, freezing the game | the walk ends: on the food, or when no unwalked open neighbour is left | not executed | SnakeAI.GreedyNeverStops | SnakeAI.GreedyPathfinding |
| crossy_road/player.py:30-39 | `move` tests the edge before the hop (top > 0, bottom < SCREEN_HEIGHT, left > 0, right < SCREEN_WIDTH), so a hop that starts less than one hop from an edge crosses it | from the start (380, 540), "down" puts the player at y = 600, entirely below the 600-pixel screen | a hop is taken only when the player stays on the screen | not executed | CrossyPlayer.MoveStepLeavesScreen | CrossyPlayer.SafeMoveStaysOnScreen |
