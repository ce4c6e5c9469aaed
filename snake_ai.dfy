/**
 * The older, self-contained snake AI: it plans a whole list of moves at once
 * (an A* search over a cost map and a parent map, a fixed boustrophedon list
 * of moves, or a greedy walk) and hands them out one per tick. Unlike the
 * newer pathfinders it treats the whole snake, tail included, as an obstacle,
 * and its heuristic is the pixel Manhattan distance.
 */
module SnakeAI {
  import opened Grid
  import opened Wrappers
  import Heapq
  import AStar
  import Hamilton
  import opened SnakeAISearch

  /** The cells a list of moves visits from c, c itself first. */
  function Follow(c: Cell, moves: seq<Direction>): (cells: seq<Cell>)
    ensures |cells| == |moves| + 1 && cells[0] == c
    decreases moves
  {
    if moves == [] then [c] else [c] + Follow(Step(c, moves[0]), moves[1..])
  }

  /** Cell k + 1 of a followed list of moves is cell k moved by move k. */
  lemma {:induction false} FollowStep(c: Cell, moves: seq<Direction>, k: nat)
    requires k < |moves|
    ensures Follow(c, moves)[k + 1] == Step(Follow(c, moves)[k], moves[k])
    decreases k
  {
    if k > 0 {
      FollowStep(Step(c, moves[0]), moves[1..], k - 1);
    }
  }

  /** A move onto an open neighbour in front of a walk is again a walk. */
  lemma WalkCons(p: Cell, w: seq<Cell>, blocked: seq<Cell>)
    requires IsWalk(w, blocked) && Adjacent(p, w[0]) && Open(w[0], blocked)
    ensures WalkFromTo([p] + w, p, w[|w| - 1], blocked)
  {
    var v := [p] + w;
    forall i | 0 < i < |v| ensures Adjacent(v[i - 1], v[i]) && Open(v[i], blocked) {
      assert v[i] == w[i - 1];
    }
  }

  // ---------------------------------------------------------------------
  // Neighbours and directions
  // ---------------------------------------------------------------------

  /** The steps in ds from pos that stay in the window and miss the blocked list, in order. */
  function ValidSteps(pos: Cell, ds: seq<Direction>, blocked: seq<Cell>): seq<Cell> {
    if ds == [] then []
    else (if Open(Step(pos, ds[0]), blocked) then [Step(pos, ds[0])] else []) + ValidSteps(pos, ds[1..], blocked)
  }

  lemma {:induction false} ValidStepsMembers(pos: Cell, ds: seq<Direction>, blocked: seq<Cell>, c: Cell)
    ensures c in ValidSteps(pos, ds, blocked) <==> exists d :: d in ds && c == Step(pos, d) && Open(c, blocked)
  {
    if ds != [] {
      ValidStepsMembers(pos, ds[1..], blocked, c);
      assert forall d :: d in ds <==> d == ds[0] || d in ds[1..];
    }
  }

  /** Exactly the open cells one step away are the valid neighbours. */
  lemma ValidNeighbours(pos: Cell, blocked: seq<Cell>, c: Cell)
    ensures c in ValidSteps(pos, NeighbourOrder, blocked) <==> Adjacent(pos, c) && Open(c, blocked)
  {
    ValidStepsMembers(pos, NeighbourOrder, blocked, c);
    if Adjacent(pos, c) {
      var d := DirectionTo(pos, c);
      assert d in NeighbourOrder && c == Step(pos, d);
    }
  }

  lemma ValidStepsFrom(pos: Cell, ds: seq<Direction>, blocked: seq<Cell>, k: nat)
    requires k < |ds|
    ensures ValidSteps(pos, ds[k..], blocked) ==
      (if Open(Step(pos, ds[k]), blocked) then [Step(pos, ds[k])] else []) + ValidSteps(pos, ds[k + 1..], blocked)
  {
    assert ds[k..][1..] == ds[k + 1..];
  }

  /** get_valid_neighbors returns exactly the open cells one step away. */
  /** One turn of get_valid_neighbors' loop keeps "found so far + still to scan = all". */
  lemma NeighboursStep(pos: Cell, blocked: seq<Cell>, k: nat, found: seq<Cell>)
    requires k < |NeighbourOrder|
    requires ValidSteps(pos, NeighbourOrder, blocked) == found + ValidSteps(pos, NeighbourOrder[k..], blocked)
    ensures Open(Step(pos, NeighbourOrder[k]), blocked) ==>
      ValidSteps(pos, NeighbourOrder, blocked) == (found + [Step(pos, NeighbourOrder[k])]) + ValidSteps(pos, NeighbourOrder[k + 1..], blocked)
    ensures !Open(Step(pos, NeighbourOrder[k]), blocked) ==>
      ValidSteps(pos, NeighbourOrder, blocked) == found + ValidSteps(pos, NeighbourOrder[k + 1..], blocked)
  {
    ValidStepsFrom(pos, NeighbourOrder, blocked, k);
    var here := if Open(Step(pos, NeighbourOrder[k]), blocked) then [Step(pos, NeighbourOrder[k])] else [];
    assert found + (here + ValidSteps(pos, NeighbourOrder[k + 1..], blocked)) ==
      (found + here) + ValidSteps(pos, NeighbourOrder[k + 1..], blocked);
    assert found + [] == found;
  }

  lemma ValidNeighboursAll(pos: Cell, blocked: seq<Cell>)
    ensures forall c :: c in ValidSteps(pos, NeighbourOrder, blocked) <==> Adjacent(pos, c) && Open(c, blocked)
  {
    forall c ensures c in ValidSteps(pos, NeighbourOrder, blocked) <==> Adjacent(pos, c) && Open(c, blocked) {
      ValidNeighbours(pos, blocked, c);
    }
  }

  /**
   * get_valid_neighbors: the four offsets in the order (0, +g), (+g, 0),
   * (0, -g), (-g, 0), keeping those inside the window and not on the snake.
   */
  method GetValidNeighbors(pos: Cell, snakePositions: seq<Cell>) returns (neighbors: seq<Cell>)
    ensures neighbors == ValidSteps(pos, NeighbourOrder, snakePositions)
  {
    neighbors := [];
    for k := 0 to |NeighbourOrder|
      invariant ValidSteps(pos, NeighbourOrder, snakePositions) == neighbors + ValidSteps(pos, NeighbourOrder[k..], snakePositions)
    {
      NeighboursStep(pos, snakePositions, k, neighbors);
      var next := Step(pos, NeighbourOrder[k]);
      if 0 <= next.0 < WindowSize && 0 <= next.1 < WindowSize && next !in snakePositions {
        neighbors := neighbors + [next];
      }
    }
  }

  /**
   * position_to_direction: RIGHT if the next cell lies to the right, else
   * LEFT if to the left, else UP if above, else DOWN (also for the same cell).
   */
  function PositionToDirection(current: Cell, next: Cell): (d: Direction)
    ensures Adjacent(current, next) ==> Step(current, d) == next
    ensures current == next ==> d == Down
  {
    var dx := next.0 - current.0;
    var dy := next.1 - current.1;
    if dx > 0 then Right
    else if dx < 0 then Left
    else if dy < 0 then Up
    else Down
  }

  /**
   * This mapper and the newer pathfinders' one (which falls back to UP)
   * agree on every pair of distinct cells and differ on the same cell.
   */
  lemma DirectionMappersDisagree(a: Cell, b: Cell)
    ensures PositionToDirection(a, b) != DirectionTo(a, b) <==> a == b
  {
  }

  // ---------------------------------------------------------------------
  // a_star_pathfinding
  // ---------------------------------------------------------------------

  /** A neighbour is worth recording when it has no cost yet or is now reached more cheaply. */
  predicate Improves(current: Cell, next: Cell, cost: map<Cell, nat>)
    requires current in cost
  {
    next !in cost || cost[current] + 1 < cost[next]
  }

  /**
   * One iteration of the neighbour loop, for the neighbour next: when next
   * improves, it gets cost current + 1, a frontier entry whose priority adds
   * the pixel distance to the goal, and current as its parent; otherwise
   * nothing changes.
   */
  method RelaxOne(current: Cell, next: Cell, goal: Cell,
                  frontier: seq<FrontierEntry>, cameFrom: map<Cell, Option<Cell>>, cost: map<Cell, nat>)
    returns (frontier': seq<FrontierEntry>, cameFrom': map<Cell, Option<Cell>>, cost': map<Cell, nat>)
    requires current in cost
    ensures Improves(current, next, cost) ==>
      cost' == cost[next := cost[current] + 1] && cameFrom' == cameFrom[next := Some(current)] &&
      multiset(frontier') == multiset(frontier) + multiset{FrontierItem(cost[current] + 1 + PixelManhattan(next, goal), next)}
    ensures !Improves(current, next, cost) ==> frontier' == frontier && cameFrom' == cameFrom && cost' == cost
  {
    frontier', cameFrom', cost' := frontier, cameFrom, cost;
    var newCost := cost[current] + 1;
    if next !in cost || newCost < cost[next] {
      cost' := cost[next := newCost];
      var priority := newCost + PixelManhattan(next, goal);
      frontier' := Heapq.HeapPush(frontier, FrontierItem(priority, next));
      cameFrom' := cameFrom[next := Some(current)];
    }
  }

  /**
   * The neighbour loop of a_star_pathfinding: every valid neighbour of
   * current that is new, or now reachable more cheaply, gets the new cost,
   * a frontier entry with priority cost + pixel distance to the goal, and
   * current as its parent.
   */
  method RelaxNeighbours(current: Cell, goal: Cell, snake: seq<Cell>, frontier0: seq<FrontierEntry>,
                         cameFrom0: map<Cell, Option<Cell>>, cost0: map<Cell, nat>, ghost start: Cell, ghost keys0: seq<Cell>)
    returns (frontier: seq<FrontierEntry>, cameFrom: map<Cell, Option<Cell>>, cost: map<Cell, nat>, ghost keys: seq<Cell>)
    requires |snake| > 0 && start == snake[0]
    requires Progress(start, snake, current, frontier0, cost0, keys0, frontier0, cameFrom0, cost0, keys0)
    ensures Progress(start, snake, current, frontier0, cost0, keys0, frontier, cameFrom, cost, keys)
    ensures Expanded(current, cost, snake)
  {
    frontier, cameFrom, cost, keys := frontier0, cameFrom0, cost0, keys0;
    var neighbours := GetValidNeighbors(current, snake);
    for i := 0 to |neighbours|
      invariant Progress(start, snake, current, frontier0, cost0, keys0, frontier, cameFrom, cost, keys)
      invariant forall j :: 0 <= j < i ==> neighbours[j] in cost
    {
      ghost var frontierBefore, cameFromBefore, costBefore, keysBefore := frontier, cameFrom, cost, keys;
      NeighbourAt(current, snake, neighbours, i);
      var next := neighbours[i];
      frontier, cameFrom, cost := RelaxOne(current, next, goal, frontier, cameFrom, cost);
      if Improves(current, next, costBefore) {
        keys := if next in costBefore then keys else keys + [next];
        ProgressRecord(start, snake, current, next, FrontierItem(costBefore[current] + 1 + PixelManhattan(next, goal), next),
                       frontier0, cost0, keys0, frontierBefore, cameFromBefore, costBefore, keysBefore, frontier, cameFrom, cost, keys);
      }
      StillCosted(neighbours, i, costBefore, cost);
    }
    AllNeighboursCosted(current, snake, neighbours, cost);
  }

  lemma NeighbourAt(pos: Cell, blocked: seq<Cell>, neighbours: seq<Cell>, i: nat)
    requires neighbours == ValidSteps(pos, NeighbourOrder, blocked) && i < |neighbours|
    ensures Adjacent(pos, neighbours[i]) && Open(neighbours[i], blocked)
  {
    ValidNeighboursAll(pos, blocked);
  }

  /** Keys are never dropped, so the neighbours handled so far keep their costs. */
  lemma StillCosted(neighbours: seq<Cell>, i: nat, cost0: map<Cell, nat>, cost: map<Cell, nat>)
    requires i < |neighbours| && forall j :: 0 <= j < i ==> neighbours[j] in cost0
    requires (forall c :: c in cost0 ==> c in cost) && neighbours[i] in cost
    ensures forall j :: 0 <= j <= i ==> neighbours[j] in cost
  {
  }

  /** Once every valid neighbour has a cost, current is expanded. */
  lemma AllNeighboursCosted(current: Cell, snake: seq<Cell>, neighbours: seq<Cell>, cost: map<Cell, nat>)
    requires neighbours == ValidSteps(current, NeighbourOrder, snake)
    requires forall j :: 0 <= j < |neighbours| ==> neighbours[j] in cost
    ensures Expanded(current, cost, snake)
  {
    ValidNeighboursAll(current, snake);
    forall d | Open(Step(current, d), snake) ensures Step(current, d) in cost {
      DirectionToStep(current, d);
      var j :| 0 <= j < |neighbours| && neighbours[j] == Step(current, d);
    }
  }

  /** Prepending the step from prev to cur to a walk from cur. */
  lemma TraceBack(prev: Cell, cur: Cell, goal: Cell, moves: seq<Direction>, snake: seq<Cell>)
    requires WalkFromTo(Follow(cur, AStar.Reversed(moves)), cur, goal, snake)
    requires Adjacent(prev, cur) && Open(cur, snake)
    ensures WalkFromTo(Follow(prev, AStar.Reversed(moves + [PositionToDirection(prev, cur)])), prev, goal, snake)
  {
    var d := PositionToDirection(prev, cur);
    var r := AStar.Reversed(moves);
    AStar.ReversedSnoc(moves, d);
    assert ([d] + r)[1..] == r;
    assert Follow(prev, [d] + r) == [prev] + Follow(cur, r);
    WalkCons(prev, Follow(cur, r), snake);
  }

  /**
   * What a_star_pathfinding returns: no moves exactly when the head is on the
   * goal or the goal cannot be reached through cells off the snake; otherwise
   * moves that walk from the head to the goal through such cells.
   */
  ghost predicate AStarPlan(snake: seq<Cell>, goal: Cell, path: seq<Direction>)
    requires |snake| > 0
  {
    (path == [] <==> snake[0] == goal || !Reachable(snake[0], goal, snake)) &&
    (path != [] ==> WalkFromTo(Follow(snake[0], path), snake[0], goal, snake))
  }

  /**
   * a_star_pathfinding from the head to the food, treating the whole snake as
   * an obstacle: pop the frontier until the goal comes off it or it runs dry,
   * then follow came_from back from the goal and reverse the directions.
   */
  method AStarPathfinding(snake: seq<Cell>, goal: Cell) returns (path: seq<Direction>)
    requires |snake| > 0
    ensures AStarPlan(snake, goal, path)
  {
    var start := snake[0];
    var frontier := [FrontierItem(0, start)];
    var cameFrom: map<Cell, Option<Cell>> := map[start := None];
    var costSoFar: map<Cell, nat> := map[start := 0];
    ghost var keys := [start];
    SearchStart(start, snake);
    while |frontier| > 0
      invariant Explored(start, snake, cameFrom, costSoFar) && Listed(keys, costSoFar)
      invariant Pending(frontier, costSoFar, snake)
      decreases |Universe(start) - costSoFar.Keys|, CostSum(keys, costSoFar), |frontier|
    {
      ghost var before := frontier;
      var top;
      top, frontier := Heapq.HeapPop(frontier);
      var current := top.item;
      ItemsAfterPop(before, top, frontier);
      if current == goal {
        break;
      }
      ghost var rest, cost0, keys0 := frontier, costSoFar, keys;
      ProgressStart(start, snake, current, frontier, cameFrom, costSoFar, keys);
      frontier, cameFrom, costSoFar, keys := RelaxNeighbours(current, goal, snake, frontier, cameFrom, costSoFar, start, keys);
      PendingAfterExpansion(start, snake, current, before, rest, cost0, keys0, frontier, cameFrom, costSoFar, keys);
      SearchMeasure(start, snake, current, before, rest, cost0, keys0, frontier, cameFrom, costSoFar, keys);
    }
    if goal !in costSoFar {
      ExhaustedSearch(start, goal, snake, frontier, costSoFar);
    }

    path := [];
    var cur := goal;
    while cur != start
      invariant cur == goal || cur in costSoFar
      invariant path == [] ==> cur == goal
      invariant path != [] ==> goal != start
      invariant WalkFromTo(Follow(cur, AStar.Reversed(path)), cur, goal, snake)
      decreases if cur in costSoFar then costSoFar[cur] + 1 else 0
    {
      var prev := if cur in cameFrom then cameFrom[cur] else None;
      if prev.None? {
        return [];
      }
      TraceBack(prev.value, cur, goal, path, snake);
      path := path + [PositionToDirection(prev.value, cur)];
      cur := prev.value;
    }
    path := AStar.Reversed(path);
  }

  // ---------------------------------------------------------------------
  // hamiltonian_cycle
  // ---------------------------------------------------------------------

  /**
   * The k-th move of the fixed list: along the row (rightwards on even rows,
   * leftwards on odd ones) and Down after the last move of each row.
   */
  function TourHeading(k: int): Direction {
    if k % GridCount == GridCount - 1 then Down
    else if (k / GridCount) % 2 == 0 then Right else Left
  }

  /** The whole list: one move between each pair of consecutive tour cells. */
  function TourMoves(): (moves: seq<Direction>)
    ensures |moves| == GridCount * GridCount - 1
  {
    seq(GridCount * GridCount - 1, k => TourHeading(k))
  }

  /** Move i of row y. */
  lemma HeadingInRow(y: int, i: int)
    requires 0 <= y && 0 <= i < GridCount
    ensures TourHeading(y * GridCount + i) == if i == GridCount - 1 then Down else if y % 2 == 0 then Right else Left
  {
    assert (y * 30 + i) / 30 == y && (y * 30 + i) % 30 == i;
  }

  /**
   * hamiltonian_cycle: for every row y of pixels, GridCount - 1 moves along
   * the row and a Down unless it is the last row. The list does not depend on
   * where the snake is.
   */
  method HamiltonianCycle() returns (path: seq<Direction>)
    ensures path == TourMoves()
  {
    path := [];
    var y := 0;
    while y < WindowSize
      invariant 0 <= y <= WindowSize && y % GridSize == 0
      invariant |path| == if y < WindowSize then (y / GridSize) * GridCount else GridCount * GridCount - 1
      invariant forall k :: 0 <= k < |path| ==> path[k] == TourHeading(k)
    {
      var row := y / GridSize;
      var heading := if row % 2 == 0 then Right else Left;
      var x := 0;
      while x < WindowSize - GridSize
        invariant 0 <= x <= WindowSize - GridSize && x % GridSize == 0
        invariant |path| == row * GridCount + x / GridSize
        invariant forall k :: 0 <= k < |path| ==> path[k] == TourHeading(k)
      {
        HeadingInRow(row, x / GridSize);
        path := path + [heading];
        x := x + GridSize;
      }
      if y < WindowSize - GridSize {
        HeadingInRow(row, GridCount - 1);
        path := path + [Down];
      }
      y := y + GridSize;
    }
    assert forall k :: 0 <= k < |path| ==> path[k] == TourMoves()[k];
  }

  /** Each move of the list leads from one tour cell to the next. */
  lemma TourStep(k: int)
    requires 0 <= k < GridCount * GridCount - 1
    ensures Hamilton.TourCell(k + 1) == Step(Hamilton.TourCell(k), TourHeading(k))
  {
    var y, i := k / 30, k % 30;
    assert k == y * 30 + i;
    Hamilton.TourColumnInRow(y, i);
    HeadingInRow(y, i);
    if i < 29 {
      Hamilton.TourColumnInRow(y, i + 1);
    } else {
      assert k + 1 == (y + 1) * 30 + 0;
      Hamilton.TourColumnInRow(y + 1, 0);
    }
  }

  lemma {:induction false} TourTrace(k: nat)
    requires k < GridCount * GridCount
    ensures Follow((0, 0), TourMoves())[k] == Hamilton.TourCell(k)
  {
    if k == 0 {
      Hamilton.TourCellInRow(0, 0);
    } else {
      TourTrace(k - 1);
      FollowStep((0, 0), TourMoves(), k - 1);
      TourStep(k - 1);
    }
  }

  /**
   * Followed from the top-left cell, the list walks the boustrophedon tour:
   * every board cell exactly once, each step to an adjacent cell, ending at
   * the bottom-left cell, which is not next to the start.
   */
  lemma HamiltonianCycleCoversBoard()
    ensures Follow((0, 0), TourMoves()) == Hamilton.Tour()
    ensures forall c :: c in Follow((0, 0), TourMoves()) <==> IsGridCell(c)
    ensures Distinct(Follow((0, 0), TourMoves()))
    ensures !Adjacent(Follow((0, 0), TourMoves())[GridCount * GridCount - 1], (0, 0))
  {
    var cells := Follow((0, 0), TourMoves());
    forall k | 0 <= k < |cells| ensures cells[k] == Hamilton.TourCell(k) {
      TourTrace(k);
    }
    Hamilton.CellsMakeTour(cells);
    forall c ensures c in cells <==> IsGridCell(c) {
      Hamilton.TourCoversBoard(c);
    }
    Hamilton.TourNotClosed();
  }

  // ---------------------------------------------------------------------
  // greedy_pathfinding
  // ---------------------------------------------------------------------

  /** min(ns, key=pixel distance to goal): the first of the cells closest to the goal. */
  function Closest(ns: seq<Cell>, goal: Cell): (c: Cell)
    requires |ns| > 0
    ensures c in ns
    ensures forall n :: n in ns ==> PixelManhattan(c, goal) <= PixelManhattan(n, goal)
    decreases |ns|
  {
    if |ns| == 1 then ns[0]
    else
      var r := Closest(ns[1..], goal);
      assert forall n :: n in ns ==> n == ns[0] || n in ns[1..];
      if PixelManhattan(ns[0], goal) <= PixelManhattan(r, goal) then ns[0] else r
  }

  /** ns[i] is the chosen cell and every cell before it is strictly farther from the goal. */
  ghost predicate FirstClosestAt(ns: seq<Cell>, goal: Cell, i: int)
    requires |ns| > 0
  {
    0 <= i < |ns| && ns[i] == Closest(ns, goal) &&
    forall j :: 0 <= j < i ==> PixelManhattan(ns[j], goal) > PixelManhattan(ns[i], goal)
  }

  /** Ties go to the earliest cell: every cell before the chosen one is strictly farther. */
  lemma {:induction false} ClosestIsFirst(ns: seq<Cell>, goal: Cell)
    requires |ns| > 0
    ensures exists i :: FirstClosestAt(ns, goal, i)
    decreases |ns|
  {
    if |ns| > 1 {
      var r := Closest(ns[1..], goal);
      if PixelManhattan(ns[0], goal) <= PixelManhattan(r, goal) {
        assert FirstClosestAt(ns, goal, 0);
      } else {
        ClosestIsFirst(ns[1..], goal);
        var i :| FirstClosestAt(ns[1..], goal, i);
        assert ns[i + 1] == Closest(ns, goal);
        forall j | 0 <= j < i + 1 ensures PixelManhattan(ns[j], goal) > PixelManhattan(ns[i + 1], goal) {
          if j > 0 {
            assert ns[j] == ns[1..][j - 1];
          }
        }
        assert FirstClosestAt(ns, goal, i + 1);
      }
    } else {
      assert FirstClosestAt(ns, goal, 0);
    }
  }

  /**
   * One turn of greedy_pathfinding's loop as written: None when current has
   * no valid neighbour, else the first valid neighbour closest to the goal.
   */
  function GreedyNext(current: Cell, goal: Cell, snake: seq<Cell>): (next: Option<Cell>)
    ensures next.None? <==> ValidSteps(current, NeighbourOrder, snake) == []
    ensures next.Some? ==> Adjacent(current, next.value) && Open(next.value, snake)
  {
    var ns := ValidSteps(current, NeighbourOrder, snake);
    if ns == [] then None
    else
      var c := Closest(ns, goal);
      ValidNeighbours(current, snake, c);
      Some(c)
  }

  /** Where the loop as written stands after n turns from current (it stops at the goal or a dead end). */
  function GreedyAfter(current: Cell, goal: Cell, snake: seq<Cell>, n: nat): Cell
    decreases n
  {
    if n == 0 || current == goal then current
    else match GreedyNext(current, goal, snake)
      case None => current
      case Some(next) => GreedyAfter(next, goal, snake, n - 1)
  }

  /** The four candidates of get_valid_neighbors, in its order, each kept when open. */
  lemma NeighbourList(pos: Cell, blocked: seq<Cell>)
    ensures ValidSteps(pos, NeighbourOrder, blocked) ==
      (if Open(Step(pos, Down), blocked) then [Step(pos, Down)] else []) +
      (if Open(Step(pos, Right), blocked) then [Step(pos, Right)] else []) +
      (if Open(Step(pos, Up), blocked) then [Step(pos, Up)] else []) +
      (if Open(Step(pos, Left), blocked) then [Step(pos, Left)] else [])
  {
    var o := NeighbourOrder;
    var down := if Open(Step(pos, Down), blocked) then [Step(pos, Down)] else [];
    var right := if Open(Step(pos, Right), blocked) then [Step(pos, Right)] else [];
    var up := if Open(Step(pos, Up), blocked) then [Step(pos, Up)] else [];
    var left := if Open(Step(pos, Left), blocked) then [Step(pos, Left)] else [];
    assert o[1..] == [Right, Up, Left] && o[1..][1..] == [Up, Left] && o[1..][1..][1..] == [Left];
    assert ValidSteps(pos, [Left], blocked) == left;
    assert ValidSteps(pos, [Up, Left], blocked) == up + left;
    assert ValidSteps(pos, [Right, Up, Left], blocked) == right + (up + left);
    assert ValidSteps(pos, o, blocked) == down + (right + (up + left));
  }

  /** The snake of the example below: running down the left edge, head (0, 40), neck (0, 20). */
  const SwingSnake: seq<Cell> := [(0, 40), (0, 20)]
  /** Its food, at the top-left corner, behind the neck. */
  const SwingFood: Cell := (0, 0)

  /** From the head the loop as written steps down to (0, 60): the head's own cell above is blocked, and Down wins the tie with Right. */
  lemma GreedyLeavesHead()
    ensures GreedyNext((0, 40), SwingFood, SwingSnake) == Some((0, 60))
  {
    NeighbourList((0, 40), SwingSnake);
    assert ValidSteps((0, 40), NeighbourOrder, SwingSnake) == [(0, 60), (20, 40)];
  }

  /** From (0, 60) it steps down to (0, 80), since the head blocks (0, 40). */
  lemma GreedyDown()
    ensures GreedyNext((0, 60), SwingFood, SwingSnake) == Some((0, 80))
  {
    NeighbourList((0, 60), SwingSnake);
    assert ValidSteps((0, 60), NeighbourOrder, SwingSnake) == [(0, 80), (20, 60)];
  }

  /** From (0, 80) it steps back up to (0, 60). */
  lemma GreedyUp()
    ensures GreedyNext((0, 80), SwingFood, SwingSnake) == Some((0, 60))
  {
    NeighbourList((0, 80), SwingSnake);
    var ns := [(0, 100), (20, 80), (0, 60)];
    assert ValidSteps((0, 80), NeighbourOrder, SwingSnake) == ns;
    assert ns[1..][1..] == [(0, 60)];
    assert Closest(ns[1..], SwingFood) == (0, 60);
  }

  /** One turn of the loop as written, away from the goal and with a neighbour to go to. */
  lemma GreedyAfterStep(c: Cell, goal: Cell, snake: seq<Cell>, n: nat, next: Cell)
    requires n > 0 && c != goal && GreedyNext(c, goal, snake) == Some(next)
    ensures GreedyAfter(c, goal, snake, n) == GreedyAfter(next, goal, snake, n - 1)
  {
  }

  /** Two cells, neither the goal, that the loop as written sends to each other: it stays on them for ever. */
  lemma {:induction false} GreedyStaysInSwing(a: Cell, b: Cell, goal: Cell, snake: seq<Cell>, n: nat)
    requires a != goal && b != goal
    requires GreedyNext(a, goal, snake) == Some(b) && GreedyNext(b, goal, snake) == Some(a)
    ensures GreedyAfter(a, goal, snake, n) == a || GreedyAfter(a, goal, snake, n) == b
    decreases n
  {
    if n > 0 {
      GreedyAfterStep(a, goal, snake, n, b);
      GreedyStaysInSwing(b, a, goal, snake, n - 1);
    }
  }

  /**
   * So the loop as written, from that head, never reaches the food and never
   * stops: after every turn it stands on (0, 60) or (0, 80) and finds a
   * neighbour again.
   */
  lemma GreedyNeverStops(n: nat)
    ensures GreedyAfter((0, 40), SwingFood, SwingSnake, n + 1) != SwingFood
    ensures GreedyNext(GreedyAfter((0, 40), SwingFood, SwingSnake, n + 1), SwingFood, SwingSnake).Some?
  {
    GreedyLeavesHead();
    GreedyDown();
    GreedyUp();
    GreedyAfterStep((0, 40), SwingFood, SwingSnake, n + 1, (0, 60));
    GreedyStaysInSwing((0, 60), (0, 80), SwingFood, SwingSnake, n);
  }

  /** The cells a moves list visits, one move longer. */
  lemma {:induction false} FollowSnoc(c: Cell, moves: seq<Direction>, d: Direction)
    ensures Follow(c, moves + [d]) == Follow(c, moves) + [Step(Follow(c, moves)[|moves|], d)]
    decreases moves
  {
    if moves != [] {
      assert (moves + [d])[1..] == moves[1..] + [d];
      FollowSnoc(Step(c, moves[0]), moves[1..], d);
    }
  }

  /**
   * The corrected walk's choices: from every cell but the last, which is not
   * the goal, it moved to the first closest neighbour that is open and not
   * yet on the walk.
   */
  ghost predicate GreedyChoices(snake: seq<Cell>, goal: Cell, cells: seq<Cell>) {
    forall k :: 0 <= k < |cells| - 1 ==>
      cells[k] != goal && ValidSteps(cells[k], NeighbourOrder, snake + cells[..k + 1]) != [] &&
      cells[k + 1] == Closest(ValidSteps(cells[k], NeighbourOrder, snake + cells[..k + 1]), goal)
  }

  /** Appending the first closest choice from the last cell extends the greedy choices. */
  lemma GreedyChoicesSnoc(snake: seq<Cell>, goal: Cell, trail: seq<Cell>, next: Cell)
    requires |trail| > 0 && GreedyChoices(snake, goal, trail)
    requires trail[|trail| - 1] != goal
    requires ValidSteps(trail[|trail| - 1], NeighbourOrder, snake + trail) != []
    requires next == Closest(ValidSteps(trail[|trail| - 1], NeighbourOrder, snake + trail), goal)
    ensures GreedyChoices(snake, goal, trail + [next])
  {
    var t := trail + [next];
    forall k | 0 <= k < |t| - 1
      ensures t[k] != goal && ValidSteps(t[k], NeighbourOrder, snake + t[..k + 1]) != [] &&
              t[k + 1] == Closest(ValidSteps(t[k], NeighbourOrder, snake + t[..k + 1]), goal)
    {
      assert t[..k + 1] == trail[..k + 1];
      if k < |trail| - 1 {
        assert t[k] == trail[k] && t[k + 1] == trail[k + 1];
      } else {
        assert trail[..k + 1] == trail;
      }
    }
  }

  /** Appending an adjacent open cell that is not yet on a walk keeps it a walk without repeats. */
  lemma WalkSnoc(trail: seq<Cell>, next: Cell, snake: seq<Cell>)
    requires IsWalk(trail, snake) && Distinct(trail)
    requires Adjacent(trail[|trail| - 1], next) && Open(next, snake) && next !in trail
    ensures IsWalk(trail + [next], snake) && Distinct(trail + [next])
  {
  }

  /** One more greedy step keeps the walk a walk, without repeats, and made of greedy choices. */
  lemma GreedyExtend(snake: seq<Cell>, goal: Cell, trail: seq<Cell>, next: Cell)
    requires IsWalk(trail, snake) && Distinct(trail) && GreedyChoices(snake, goal, trail)
    requires trail[|trail| - 1] != goal
    requires ValidSteps(trail[|trail| - 1], NeighbourOrder, snake + trail) != []
    requires next == Closest(ValidSteps(trail[|trail| - 1], NeighbourOrder, snake + trail), goal)
    ensures Adjacent(trail[|trail| - 1], next) && next !in trail && InWindow(next)
    ensures IsWalk(trail + [next], snake) && Distinct(trail + [next]) && GreedyChoices(snake, goal, trail + [next])
  {
    ValidNeighbours(trail[|trail| - 1], snake + trail, next);
    WalkSnoc(trail, next, snake);
    GreedyChoicesSnoc(snake, goal, trail, next);
  }

  /**
   * What the corrected greedy_pathfinding returns: moves that walk from the
   * head through cells off the snake, never twice through the same cell, each
   * a greedy choice, ending on the goal or where no unwalked open neighbour
   * is left.
   */
  ghost predicate GreedyPlan(snake: seq<Cell>, goal: Cell, path: seq<Direction>)
    requires |snake| > 0
  {
    var cells := Follow(snake[0], path);
    IsWalk(cells, snake) && Distinct(cells) && GreedyChoices(snake, goal, cells) &&
    (cells[|path|] == goal || ValidSteps(cells[|path|], NeighbourOrder, snake + cells) == [])
  }

  /**
   * greedy_pathfinding, corrected to stop: from the head, repeatedly move to
   * the first closest valid neighbour, now also treating the cells already
   * walked as blocked, until the goal is reached or no such neighbour is
   * left. The walk avoids the snake, never repeats a cell and is made of
   * greedy choices.
   */
  method GreedyPathfinding(snake: seq<Cell>, goal: Cell) returns (path: seq<Direction>)
    requires |snake| > 0
    ensures GreedyPlan(snake, goal, path)
  {
    path := [];
    var current := snake[0];
    var trail := [current];
    ghost var seen: set<Cell> := {current};
    while current != goal
      invariant trail == Follow(snake[0], path) && current == trail[|trail| - 1]
      invariant IsWalk(trail, snake) && Distinct(trail) && GreedyChoices(snake, goal, trail)
      invariant forall c :: c in seen <==> c in trail
      decreases |WindowCells() - seen|
    {
      var neighbors := GetValidNeighbors(current, snake + trail);
      if |neighbors| == 0 {
        break;
      }
      var next := Closest(neighbors, goal);
      GreedyExtend(snake, goal, trail, next);
      assert next in WindowCells() by {
        assert next == (next.0, next.1);
      }
      AStar.SubtractGrows(WindowCells(), seen, next);
      var d := PositionToDirection(current, next);
      FollowSnoc(snake[0], path, d);
      path := path + [d];
      trail := trail + [next];
      seen := seen + {next};
      current := next;
    }
  }

  // ---------------------------------------------------------------------
  // SnakeAI
  // ---------------------------------------------------------------------

  /** The planner get_next_move refills with: "a_star", "hamiltonian", or any other name for greedy. */
  datatype Algorithm = AStarSearch | HamiltonianTour | Greedy

  /** What a fresh plan from the given algorithm satisfies. */
  ghost predicate PlanFits(algorithm: Algorithm, snake: seq<Cell>, food: Cell, plan: seq<Direction>)
    requires |snake| > 0
  {
    match algorithm
    case AStarSearch => AStarPlan(snake, food, plan)
    case HamiltonianTour => plan == TourMoves()
    case Greedy => GreedyPlan(snake, food, plan)
  }

  /**
   * The planner object: its algorithm and the moves planned but not yet
   * handed out. The game it reads (the snake and the food) is passed to
   * GetNextMove.
   */
  class SnakeAI {
    const algorithm: Algorithm
    var path: seq<Direction>
    /** The last plan computed, of which path is what is left. */
    ghost var plan: seq<Direction>

    constructor (algorithm: Algorithm)
      ensures this.algorithm == algorithm && path == [] && plan == []
    {
      this.algorithm := algorithm;
      path := [];
      plan := [];
    }

    /**
     * get_next_move: with moves left, hand out the first one; with none, ask
     * the algorithm for a new plan first, and hand out its first move, or
     * nothing when the plan is empty.
     */
    method GetNextMove(snake: seq<Cell>, food: Cell) returns (move: Option<Direction>)
      requires |snake| > 0
      modifies this
      ensures old(path) != [] ==> move == Some(old(path)[0]) && path == old(path)[1..] && plan == old(plan)
      ensures old(path) == [] ==> PlanFits(algorithm, snake, food, plan)
      ensures old(path) == [] && plan == [] ==> move == None && path == []
      ensures old(path) == [] && plan != [] ==> move == Some(plan[0]) && path == plan[1..]
    {
      if path == [] {
        match algorithm {
          case AStarSearch =>
            path := AStarPathfinding(snake, food);
          case HamiltonianTour =>
            path := HamiltonianCycle();
          case Greedy =>
            path := GreedyPathfinding(snake, food);
        }
        plan := path;
      }
      if path != [] {
        move := Some(path[0]);
        path := path[1..];
      } else {
        move := None;
      }
    }
  }
}
