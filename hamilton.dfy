/**
 * The "Hamiltonian" pathfinder: a boustrophedon tour of the board (even rows
 * left to right, odd rows right to left), a map from each cell to its place
 * on the tour, and a shortcut rule that leaves the tour for a neighbour
 * nearer the food (counted forward along the tour) while the snake is short
 * and the tail stays reachable.
 *
 * The tour is not closed: its last cell (0, 580) is not next to its first
 * cell (0, 0), although the successor index wraps around to 0.
 */
module Hamilton {
  import opened Grid
  import opened Wrappers
  import AStar

  /** The pixel cell of grid column x and grid row y. */
  function Scaled(x: int, y: int): Cell {
    (x * GridSize, y * GridSize)
  }

  /** Board columns and rows scale to exactly the board cells, and scaling back divides by GridSize. */
  lemma ScaledIsGridCell(x: int, y: int)
    requires 0 <= x < GridCount && 0 <= y < GridCount
    ensures IsGridCell(Scaled(x, y))
    ensures Scaled(x, y).0 / GridSize == x && Scaled(x, y).1 / GridSize == y
  {
    assert (x * 20) / 20 == x && (y * 20) / 20 == y;
    assert (x * 20) % 20 == 0 && (y * 20) % 20 == 0;
  }

  lemma GridCellIsScaled(c: Cell)
    requires IsGridCell(c)
    ensures 0 <= c.0 / GridSize < GridCount && 0 <= c.1 / GridSize < GridCount
    ensures c == Scaled(c.0 / GridSize, c.1 / GridSize)
  {
  }

  /** Neighbouring grid positions scale to adjacent cells. */
  lemma ScaledAdjacent(x: int, y: int, x2: int, y2: int)
    requires (y2 == y && (x2 == x + 1 || x2 == x - 1)) || (x2 == x && y2 == y + 1)
    ensures Adjacent(Scaled(x, y), Scaled(x2, y2))
  {
  }

  /** The column of the k-th tour cell: rightwards on even rows, leftwards on odd ones. */
  function TourColumn(k: int): int {
    var y := k / GridCount;
    var i := k % GridCount;
    if y % 2 == 0 then i else GridCount - 1 - i
  }

  /** The k-th cell of the tour: row k / GridCount, at column TourColumn(k). */
  function TourCell(k: int): Cell {
    Scaled(TourColumn(k), k / GridCount)
  }

  /** The place of a board cell on the tour: the inverse of TourCell. */
  function TourIndex(c: Cell): int {
    var y := c.1 / GridSize;
    var x := c.0 / GridSize;
    y * GridCount + (if y % 2 == 0 then x else GridCount - 1 - x)
  }

  /** The whole tour: GridCount * GridCount = 900 cells. */
  function Tour(): (t: seq<Cell>)
    ensures |t| == 900
  {
    assert GridCount == 30;
    seq(GridCount * GridCount, k => TourCell(k))
  }

  /** Row y, position i of the tour: column i on even rows, column GridCount - 1 - i on odd ones. */
  lemma TourColumnInRow(y: int, i: int)
    requires 0 <= y && 0 <= i < GridCount
    ensures (y * GridCount + i) / GridCount == y
    ensures TourColumn(y * GridCount + i) == if y % 2 == 0 then i else GridCount - 1 - i
  {
    assert (y * 30 + i) / 30 == y && (y * 30 + i) % 30 == i;
  }

  lemma TourCellInRow(y: int, i: int)
    requires 0 <= y && 0 <= i < GridCount
    ensures TourCell(y * GridCount + i) == Scaled(if y % 2 == 0 then i else GridCount - 1 - i, y)
  {
    TourColumnInRow(y, i);
  }

  /** Every tour index names a board cell, and TourIndex recovers the index. */
  lemma TourIndexOfCell(k: int)
    requires 0 <= k < GridCount * GridCount
    ensures IsGridCell(TourCell(k)) && TourIndex(TourCell(k)) == k
  {
    var y, i := k / 30, k % 30;
    assert k == y * 30 + i && 0 <= y < 30;
    TourColumnInRow(y, i);
    ScaledIsGridCell(TourColumn(k), y);
  }

  /** Every board cell lies on the tour, at TourIndex. */
  lemma TourCellOfIndex(c: Cell)
    requires IsGridCell(c)
    ensures 0 <= TourIndex(c) < GridCount * GridCount && TourCell(TourIndex(c)) == c
  {
    GridCellIsScaled(c);
    var y, x := c.1 / 20, c.0 / 20;
    var i := if y % 2 == 0 then x else 29 - x;
    assert TourIndex(c) == y * 30 + i;
    TourCellInRow(y, i);
  }

  /** generate_cycle's rows: even rows run left to right, odd rows right to left. */
  lemma TourRows(y: int, i: int)
    requires 0 <= y < GridCount && 0 <= i < GridCount
    ensures y * GridCount + i < |Tour()|
    ensures Tour()[y * GridCount + i] == ((if y % 2 == 0 then i else GridCount - 1 - i) * GridSize, y * GridSize)
  {
    TourCellInRow(y, i);
  }

  /** No cell appears twice on the tour. */
  lemma TourDistinct()
    ensures forall i, j :: 0 <= i < j < |Tour()| ==> Tour()[i] != Tour()[j]
  {
    forall i, j | 0 <= i < j < |Tour()| ensures Tour()[i] != Tour()[j] {
      TourIndexOfCell(i);
      TourIndexOfCell(j);
    }
  }

  /** The first y rows of the tour followed by row y are the first y + 1 rows. */
  lemma AppendRow(positions: seq<Cell>, row: seq<Cell>, y: int)
    requires 0 <= y && |positions| == y * GridCount && forall k :: 0 <= k < |positions| ==> positions[k] == TourCell(k)
    requires |row| == GridCount && forall i :: 0 <= i < GridCount ==> row[i] == TourCell(y * GridCount + i)
    ensures |positions + row| == (y + 1) * GridCount
    ensures forall k :: 0 <= k < |positions + row| ==> (positions + row)[k] == TourCell(k)
  {
    forall k | |positions| <= k < |positions + row| ensures (positions + row)[k] == TourCell(k) {
      assert (positions + row)[k] == row[k - y * GridCount];
    }
  }

  /** A sequence that lists TourCell(0), TourCell(1), ... for every tour index is the tour, without repeats. */
  lemma CellsMakeTour(s: seq<Cell>)
    requires |s| == GridCount * GridCount && forall k :: 0 <= k < |s| ==> s[k] == TourCell(k)
    ensures s == Tour()
    ensures forall i, j :: 0 <= i < j < |s| ==> s[i] != s[j]
  {
    assert |s| == |Tour()|;
    TourDistinct();
  }

  /** The tour holds exactly the board cells. */
  lemma TourCoversBoard(c: Cell)
    ensures c in Tour() <==> IsGridCell(c)
  {
    if c in Tour() {
      var k :| 0 <= k < |Tour()| && Tour()[k] == c;
      TourIndexOfCell(k);
    }
    if IsGridCell(c) {
      TourCellOfIndex(c);
      assert Tour()[TourIndex(c)] == c;
    }
  }

  /** Consecutive tour cells are one grid step apart. */
  lemma TourAdjacent(k: int)
    requires 0 <= k < |Tour()| - 1
    ensures Adjacent(Tour()[k], Tour()[k + 1])
  {
    var y, i := k / 30, k % 30;
    assert k == y * 30 + i;
    TourStepAdjacent(y, i);
  }

  /** Position i of row y and the next tour position: along the row, or down to the next row at its end. */
  lemma TourStepAdjacent(y: int, i: int)
    requires 0 <= y && 0 <= i < GridCount && y * GridCount + i < GridCount * GridCount - 1
    ensures Adjacent(TourCell(y * GridCount + i), TourCell(y * GridCount + i + 1))
  {
    if i < GridCount - 1 {
      TourStepAlongRow(y, i);
    } else {
      TourStepDownRow(y);
    }
  }

  lemma TourStepAlongRow(y: int, i: int)
    requires 0 <= y && 0 <= i < GridCount - 1
    ensures Adjacent(TourCell(y * GridCount + i), TourCell(y * GridCount + i + 1))
  {
    TourCellInRow(y, i);
    TourCellInRow(y, i + 1);
    if y % 2 == 0 {
      ScaledAdjacent(i, y, i + 1, y);
    } else {
      ScaledAdjacent(GridCount - 1 - i, y, GridCount - 2 - i, y);
    }
  }

  lemma TourStepDownRow(y: int)
    requires 0 <= y
    ensures Adjacent(TourCell(y * GridCount + GridCount - 1), TourCell(y * GridCount + GridCount - 1 + 1))
  {
    TourCellInRow(y, GridCount - 1);
    TourCellInRow(y + 1, 0);
    assert y * GridCount + GridCount - 1 + 1 == (y + 1) * GridCount + 0;
    var x := if y % 2 == 0 then GridCount - 1 else 0;
    assert (y + 1) % 2 == 0 <==> y % 2 != 0;
    ScaledAdjacent(x, y, x, y + 1);
  }

  /** The comment promises a closed cycle, but the last cell is not next to the first. */
  lemma TourNotClosed()
    ensures Tour()[|Tour()| - 1] == (0, 580) && Tour()[0] == (0, 0)
    ensures !Adjacent(Tour()[|Tour()| - 1], Tour()[0])
  {
    TourCellInRow(29, 29);
    TourCellInRow(0, 0);
  }

  /** position_to_index as enumerate(cycle) builds it: every cycle cell maps to its index, and nothing else is a key. */
  ghost predicate IndexesCycle(m: map<Cell, int>, s: seq<Cell>) {
    (forall i :: 0 <= i < |s| ==> s[i] in m && m[s[i]] == i) &&
    (forall c :: c in m ==> c in s)
  }

  /** {pos: idx for idx, pos in enumerate(s)} for a sequence without repeats. */
  function IndexMap(s: seq<Cell>): (m: map<Cell, int>)
    requires forall i, j :: 0 <= i < j < |s| ==> s[i] != s[j]
    ensures IndexesCycle(m, s)
  {
    map i | 0 <= i < |s| :: s[i] := i
  }

  /** For the tour, a lookup succeeds exactly on board cells and answers TourIndex. */
  lemma IndexLookup(m: map<Cell, int>, c: Cell)
    requires IndexesCycle(m, Tour())
    ensures c in m <==> IsGridCell(c)
    ensures c in m ==> m[c] == TourIndex(c)
  {
    TourCoversBoard(c);
    if IsGridCell(c) {
      TourCellOfIndex(c);
      assert Tour()[TourIndex(c)] == c;
    }
  }

  /** can_take_shortcut: len(snake) < 0.7 * width * height, in integers. */
  predicate CanTakeShortcut(length: int) {
    10 * length < 7 * (GridCount * GridCount)
  }

  /** The 70 % threshold on the 30 x 30 board: shortcuts stop at 630 segments. */
  lemma CanTakeShortcutThreshold(length: int)
    ensures CanTakeShortcut(length) <==> length < 630
  {
  }

  /**
   * A neighbour p of the head qualifies as a shortcut: in the window, not on
   * the snake (tail included), on the tour, strictly nearer the food counted
   * forward along a tour of length n, and the tail is reachable from it.
   */
  ghost predicate ShortcutOk(snake: seq<Cell>, index: map<Cell, int>, n: int, currentIndex: int, foodIndex: int, p: Cell)
    requires |snake| > 0 && n > 0
  {
    InWindow(p) && p !in snake && p in index &&
    (foodIndex - index[p]) % n < (foodIndex - currentIndex) % n &&
    Reachable(p, snake[|snake| - 1], Body(snake))
  }

  /** The first qualifying neighbour of the head in the order of ds, if any. */
  ghost function FirstShortcut(snake: seq<Cell>, index: map<Cell, int>, n: int, currentIndex: int, foodIndex: int, ds: seq<Direction>): Option<Cell>
    requires |snake| > 0 && n > 0
  {
    if ds == [] then None
    else if ShortcutOk(snake, index, n, currentIndex, foodIndex, Step(snake[0], ds[0])) then Some(Step(snake[0], ds[0]))
    else FirstShortcut(snake, index, n, currentIndex, foodIndex, ds[1..])
  }

  /** A shortcut found is the first qualifying neighbour, in the order of ds. */
  lemma {:induction false} FirstShortcutFound(snake: seq<Cell>, index: map<Cell, int>, n: int, currentIndex: int, foodIndex: int, ds: seq<Direction>)
    returns (k: nat)
    requires |snake| > 0 && n > 0
    requires FirstShortcut(snake, index, n, currentIndex, foodIndex, ds).Some?
    ensures k < |ds| && FirstShortcut(snake, index, n, currentIndex, foodIndex, ds).value == Step(snake[0], ds[k])
    ensures ShortcutOk(snake, index, n, currentIndex, foodIndex, Step(snake[0], ds[k]))
    ensures forall j :: 0 <= j < k ==> !ShortcutOk(snake, index, n, currentIndex, foodIndex, Step(snake[0], ds[j]))
  {
    if ShortcutOk(snake, index, n, currentIndex, foodIndex, Step(snake[0], ds[0])) {
      k := 0;
    } else {
      var k' := FirstShortcutFound(snake, index, n, currentIndex, foodIndex, ds[1..]);
      k := k' + 1;
      forall j | 0 <= j < k ensures !ShortcutOk(snake, index, n, currentIndex, foodIndex, Step(snake[0], ds[j])) {
        if j > 0 {
          assert ds[j] == ds[1..][j - 1];
        }
      }
    }
  }

  /** No shortcut found means no neighbour in ds qualifies. */
  lemma {:induction false} FirstShortcutNone(snake: seq<Cell>, index: map<Cell, int>, n: int, currentIndex: int, foodIndex: int, ds: seq<Direction>)
    requires |snake| > 0 && n > 0
    requires FirstShortcut(snake, index, n, currentIndex, foodIndex, ds) == None
    ensures forall d :: d in ds ==> !ShortcutOk(snake, index, n, currentIndex, foodIndex, Step(snake[0], d))
  {
    if ds != [] {
      FirstShortcutNone(snake, index, n, currentIndex, foodIndex, ds[1..]);
      assert forall d :: d in ds ==> d == ds[0] || d in ds[1..];
    }
  }

  /** The shortcut get_next_move would take: only while the snake is short and the food is on the tour. */
  ghost function Shortcut(snake: seq<Cell>, food: Cell, cycle: seq<Cell>, index: map<Cell, int>): Option<Cell>
    requires |snake| > 0 && |cycle| > 0
  {
    var current := if snake[0] in index then index[snake[0]] else 0;
    if CanTakeShortcut(|snake|) && food in index then
      FirstShortcut(snake, index, |cycle|, current, index[food], NeighbourOrder)
    else None
  }

  /** get_next_move: towards the shortcut if there is one, else towards the next tour cell (index 0 when the head is off the tour). */
  ghost function TourMove(snake: seq<Cell>, food: Cell, cycle: seq<Cell>, index: map<Cell, int>): Direction
    requires |snake| > 0 && |cycle| > 0
  {
    var current := if snake[0] in index then index[snake[0]] else 0;
    match Shortcut(snake, food, cycle, index)
    case Some(p) => DirectionTo(snake[0], p)
    case None => DirectionTo(snake[0], cycle[(current + 1) % |cycle|])
  }

  lemma ModSmall(a: int, n: int)
    requires 0 <= a < n
    ensures a % n == a
  {
  }

  /** Without a shortcut the move heads for the successor of the head's index (of index 0 when it has none). */
  lemma TourMoveWithoutShortcut(snake: seq<Cell>, food: Cell, cycle: seq<Cell>, index: map<Cell, int>, current: int)
    requires |snake| > 0 && |cycle| > 0
    requires Shortcut(snake, food, cycle, index) == None
    requires current == if snake[0] in index then index[snake[0]] else 0
    ensures TourMove(snake, food, cycle, index) == DirectionTo(snake[0], cycle[(current + 1) % |cycle|])
  {
  }

  /** Without a shortcut, a head at tour position i (not the last) steps onto tour cell i + 1. */
  lemma TourMoveFollowsTour(snake: seq<Cell>, food: Cell, index: map<Cell, int>, i: int)
    requires |snake| > 0 && IndexesCycle(index, Tour())
    requires Shortcut(snake, food, Tour(), index) == None
    requires 0 <= i < |Tour()| - 1 && snake[0] == Tour()[i]
    ensures Step(snake[0], TourMove(snake, food, Tour(), index)) == Tour()[i + 1]
  {
    assert index[snake[0]] == i;
    TourMoveWithoutShortcut(snake, food, Tour(), index, i);
    ModSmall(i + 1, |Tour()|);
    TourAdjacent(i);
  }

  /** Without a shortcut, a head off the tour heads for the tour's second cell (20, 0). */
  lemma TourMoveOffBoard(snake: seq<Cell>, food: Cell, index: map<Cell, int>)
    requires |snake| > 0 && IndexesCycle(index, Tour())
    requires Shortcut(snake, food, Tour(), index) == None
    requires snake[0] !in Tour()
    ensures TourMove(snake, food, Tour(), index) == DirectionTo(snake[0], (20, 0))
  {
    assert snake[0] !in index;
    TourMoveWithoutShortcut(snake, food, Tour(), index, 0);
    TourCellInRow(0, 1);
    ModSmall(0 + 1, |Tour()|);
  }

  /** At the tour's last cell the successor wraps to (0, 0), which is not adjacent: the move is UP, onto (0, 560). */
  lemma TourMoveAtLastCell(snake: seq<Cell>, food: Cell, index: map<Cell, int>)
    requires |snake| > 0 && IndexesCycle(index, Tour())
    requires Shortcut(snake, food, Tour(), index) == None
    requires snake[0] == Tour()[|Tour()| - 1]
    ensures TourMove(snake, food, Tour(), index) == Up
    ensures Step(snake[0], Up) == (0, 560) && Step(snake[0], Up) != Tour()[0]
  {
    TourNotClosed();
    var n := |Tour()|;
    assert index[snake[0]] == n - 1;
    TourMoveWithoutShortcut(snake, food, Tour(), index, n - 1);
    assert (n - 1 + 1) % n == 0;
  }

  /** A shortcut is the step in some direction d onto a qualifying cell, and the move is d. */
  lemma ShortcutStep(snake: seq<Cell>, food: Cell, cycle: seq<Cell>, index: map<Cell, int>) returns (d: Direction)
    requires |snake| > 0 && |cycle| > 0
    requires Shortcut(snake, food, cycle, index).Some?
    ensures CanTakeShortcut(|snake|) && food in index
    ensures Shortcut(snake, food, cycle, index).value == Step(snake[0], d)
    ensures TourMove(snake, food, cycle, index) == d && Adjacent(snake[0], Step(snake[0], d))
    ensures ShortcutOk(snake, index, |cycle|, if snake[0] in index then index[snake[0]] else 0, index[food], Step(snake[0], d))
  {
    var current := if snake[0] in index then index[snake[0]] else 0;
    var k := FirstShortcutFound(snake, index, |cycle|, current, index[food], NeighbourOrder);
    d := NeighbourOrder[k];
    DirectionToStep(snake[0], d);
  }

  /**
   * A shortcut is a neighbour of the head, in the window, off the snake,
   * strictly nearer the food forward along the tour, the tail reachable
   * from it, and the first such in the neighbour order; the move steps onto it.
   */
  lemma TourMoveShortcut(snake: seq<Cell>, food: Cell, index: map<Cell, int>)
    requires |snake| > 0 && IndexesCycle(index, Tour())
    requires Shortcut(snake, food, Tour(), index).Some?
    ensures CanTakeShortcut(|snake|) && IsGridCell(food) && food in index
    ensures var p := Shortcut(snake, food, Tour(), index).value;
      var current := if snake[0] in index then index[snake[0]] else 0;
      Adjacent(snake[0], p) && Step(snake[0], TourMove(snake, food, Tour(), index)) == p &&
      InWindow(p) && p !in snake && IsGridCell(p) && p in index &&
      (index[food] - index[p]) % |Tour()| < (index[food] - current) % |Tour()| &&
      Reachable(p, snake[|snake| - 1], Body(snake))
  {
    var d := ShortcutStep(snake, food, Tour(), index);
    TourCoversBoard(food);
    TourCoversBoard(Step(snake[0], d));
  }

  /** With no shortcut available, every in-window neighbour fails one of the shortcut conditions. */
  lemma NoShortcutMeansNoneQualifies(snake: seq<Cell>, food: Cell, index: map<Cell, int>, d: Direction)
    requires |snake| > 0 && IndexesCycle(index, Tour())
    requires CanTakeShortcut(|snake|) && food in index
    requires Shortcut(snake, food, Tour(), index) == None
    ensures var current := if snake[0] in index then index[snake[0]] else 0;
      !ShortcutOk(snake, index, |Tour()|, current, index[food], Step(snake[0], d))
  {
    var current := if snake[0] in index then index[snake[0]] else 0;
    FirstShortcutNone(snake, index, |Tour()|, current, index[food], NeighbourOrder);
    assert d in NeighbourOrder;
  }

  class HamiltonianPathfinder {
    var cycle: seq<Cell>
    var positionToIndex: map<Cell, int>

    /** The tour is generated and indexed. */
    ghost predicate Valid()
      reads this
    {
      cycle == Tour() && IndexesCycle(positionToIndex, cycle)
    }

    constructor ()
      ensures Valid()
    {
      cycle := [];
      positionToIndex := map[];
      new;
      GenerateCycle();
    }

    /** One row of generate_cycle: the cells of row y left to right, reversed when y is odd. */
    static method BuildRow(y: int) returns (row: seq<Cell>)
      requires 0 <= y
      ensures |row| == GridCount
      ensures forall i :: 0 <= i < GridCount ==> row[i] == TourCell(y * GridCount + i)
    {
      row := [];
      for x := 0 to GridCount
        invariant |row| == x
        invariant forall i :: 0 <= i < x ==> row[i] == (i * GridSize, y * GridSize)
      {
        row := row + [(x * GridSize, y * GridSize)];
      }
      if y % 2 == 1 {
        row := AStar.Reversed(row);
      }
      forall i | 0 <= i < GridCount ensures row[i] == TourCell(y * GridCount + i) {
        TourCellInRow(y, i);
      }
    }

    /** generate_cycle: the rows in order, then the index of every cell. */
    method GenerateCycle()
      modifies this
      ensures cycle == Tour() && IndexesCycle(positionToIndex, cycle)
    {
      var positions: seq<Cell> := [];
      for y := 0 to GridCount
        invariant |positions| == y * GridCount
        invariant forall k :: 0 <= k < |positions| ==> positions[k] == TourCell(k)
      {
        var row := BuildRow(y);
        AppendRow(positions, row, y);
        positions := positions + row;
      }
      CellsMakeTour(positions);
      cycle := positions;
      positionToIndex := IndexMap(positions);
    }

    /** is_safe_move's neighbour loop: queue every open, unvisited neighbour of current. */
    method VisitNeighbours(current: Cell, snakePositions: seq<Cell>, visited0: set<Cell>, queue0: seq<Cell>, ghost start: Cell, ghost popped: set<Cell>)
      returns (visited: set<Cell>, queue: seq<Cell>)
      requires AStar.FloodState(start, snakePositions, popped, visited0, queue0) && current in popped
      ensures AStar.FloodState(start, snakePositions, popped, visited, queue)
      ensures visited0 <= visited
      ensures forall d :: Open(Step(current, d), snakePositions) ==> Step(current, d) in visited
      ensures visited == visited0 ==> queue == queue0
    {
      visited, queue := visited0, queue0;
      for k := 0 to |NeighbourOrder|
        invariant AStar.FloodState(start, snakePositions, popped, visited, queue)
        invariant visited0 <= visited
        invariant forall j :: 0 <= j < k && Open(Step(current, NeighbourOrder[j]), snakePositions) ==> Step(current, NeighbourOrder[j]) in visited
        invariant visited == visited0 ==> queue == queue0
      {
        var nextPos := Step(current, NeighbourOrder[k]);
        if InWindow(nextPos) && nextPos !in visited && nextPos !in snakePositions {
          ReachableStep(start, current, NeighbourOrder[k], snakePositions);
          OpenInUniverse(nextPos, start, snakePositions);
          AStar.FloodStatePush(start, snakePositions, popped, visited, queue, nextPos);
          visited := visited + {nextPos};
          queue := queue + [nextPos];
        }
      }
      forall d | Open(Step(current, d), snakePositions) ensures Step(current, d) in visited {
        assert d == NeighbourOrder[0] || d == NeighbourOrder[1] || d == NeighbourOrder[2] || d == NeighbourOrder[3];
      }
    }

    /**
     * is_safe_move: a breadth-first search from position over in-window cells
     * outside snake_pos[:-1]; true as soon as it dequeues the tail.
     */
    method IsSafeMove(position: Cell, snake: seq<Cell>) returns (safe: bool)
      requires |snake| > 0
      ensures safe <==> Reachable(position, snake[|snake| - 1], Body(snake))
    {
      var visited: set<Cell> := {position};
      var queue: seq<Cell> := [position];
      var tail := snake[|snake| - 1];
      var snakePositions := Body(snake);
      ghost var popped: set<Cell> := {};
      ghost var universe := Universe(position);
      ReachableRefl(position, snakePositions);
      while |queue| > 0
        invariant AStar.FloodState(position, snakePositions, popped, visited, queue)
        invariant tail !in popped && position in visited
        invariant forall c, d :: c in popped && Open(Step(c, d), snakePositions) ==> Step(c, d) in visited
        decreases |universe - visited|, |queue|
      {
        var current := queue[0];
        ghost var v0 := visited;
        queue := queue[1..];
        if current == tail {
          return true;
        }
        popped := popped + {current};
        visited, queue := VisitNeighbours(current, snakePositions, visited, queue, position, popped);
        if visited != v0 {
          AStar.LargerSubsetLeavesLess(universe, v0, visited);
        }
      }
      assert visited == popped;
      assert ClosedUnderSteps(visited, snakePositions);
      if Reachable(position, tail, snakePositions) {
        ClosedContainsReachable(visited, position, tail, snakePositions);
      }
      return false;
    }

    /** find_shortcut_to_food: the first neighbour of the head, in offset order, that qualifies as a shortcut. */
    method FindShortcutToFood(snake: seq<Cell>, currentIndex: int, foodIndex: int) returns (next: Option<Cell>)
      requires Valid() && |snake| > 0
      ensures next == FirstShortcut(snake, positionToIndex, |cycle|, currentIndex, foodIndex, NeighbourOrder)
    {
      var head := snake[0];
      for k := 0 to |NeighbourOrder|
        invariant FirstShortcut(snake, positionToIndex, |cycle|, currentIndex, foodIndex, NeighbourOrder)
               == FirstShortcut(snake, positionToIndex, |cycle|, currentIndex, foodIndex, NeighbourOrder[k..])
      {
        assert NeighbourOrder[k..][1..] == NeighbourOrder[k + 1..];
        var nextPos := Step(head, NeighbourOrder[k]);
        if InWindow(nextPos) && nextPos !in snake && nextPos in positionToIndex {
          var nextIndex := positionToIndex[nextPos];
          var cycleDistance := (foodIndex - currentIndex) % |cycle|;
          var shortcutDistance := (foodIndex - nextIndex) % |cycle|;
          if shortcutDistance < cycleDistance {
            var safe := IsSafeMove(nextPos, snake);
            if safe {
              return Some(nextPos);
            }
          }
        }
      }
      return None;
    }

    /** get_next_move: take a shortcut towards the food when allowed and found, else follow the tour. */
    method GetNextMove(snake: seq<Cell>, food: Cell) returns (r: Direction)
      requires Valid() && |snake| > 0
      ensures r == TourMove(snake, food, cycle, positionToIndex)
    {
      var currentPos := snake[0];
      var currentIndex := if currentPos in positionToIndex then positionToIndex[currentPos] else 0;
      if CanTakeShortcut(|snake|) {
        if food in positionToIndex {
          var foodIndex := positionToIndex[food];
          var nextPos := FindShortcutToFood(snake, currentIndex, foodIndex);
          if nextPos.Some? {
            return DirectionTo(currentPos, nextPos.value);
          }
        }
      }
      var nextIndex := (currentIndex + 1) % |cycle|;
      var nextPos := cycle[nextIndex];
      return DirectionTo(currentPos, nextPos);
    }
  }
}
