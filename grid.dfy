/**
 * The grid the snake lives on. Cells are pixel coordinates: a cell of the
 * board is a multiple of GridSize inside the WindowSize x WindowSize window.
 * Everything here is shared by the pathfinders: one-cell steps, walks that
 * avoid a blocked list, and reachability.
 */
module Grid {

  /** The four headings, declared in the enum's iteration order RIGHT, LEFT, UP, DOWN. */
  datatype Direction = Right | Left | Up | Down

  /** Iteration order of the Direction enum. */
  const DirectionOrder: seq<Direction> := [Right, Left, Up, Down]

  /** Order of the offset lists (0,1), (1,0), (0,-1), (-1,0) used by every neighbour scan. */
  const NeighbourOrder: seq<Direction> := [Down, Right, Up, Left]

  type Cell = (int, int)

  const WindowSize: int := 600
  const GridSize: int := 20
  /** Cells per row and per column: WindowSize // GridSize. */
  const GridCount: int := WindowSize / GridSize

  predicate InWindow(c: Cell) {
    0 <= c.0 < WindowSize && 0 <= c.1 < WindowSize
  }

  /** A board cell: inside the window and aligned to the grid. */
  predicate IsGridCell(c: Cell) {
    InWindow(c) && c.0 % GridSize == 0 && c.1 % GridSize == 0
  }

  /** The cell one GridSize step away in direction d (y grows downwards). */
  function Step(c: Cell, d: Direction): Cell {
    match d
    case Right => (c.0 + GridSize, c.1)
    case Left => (c.0 - GridSize, c.1)
    case Up => (c.0, c.1 - GridSize)
    case Down => (c.0, c.1 + GridSize)
  }

  /** Two cells one GridSize step apart along exactly one axis. */
  predicate Adjacent(a: Cell, b: Cell) {
    (a.1 == b.1 && (b.0 == a.0 + GridSize || b.0 == a.0 - GridSize)) ||
    (a.0 == b.0 && (b.1 == a.1 + GridSize || b.1 == a.1 - GridSize))
  }

  function Abs(n: int): nat {
    if n < 0 then -n else n
  }

  /** |x1 - x2| + |y1 - y2| in pixels. */
  function PixelManhattan(a: Cell, b: Cell): nat {
    Abs(a.0 - b.0) + Abs(a.1 - b.1)
  }

  /**
   * get_direction_to_position: RIGHT if the target lies to the right, else
   * LEFT if to the left, else DOWN if below, else UP (also for the same cell).
   */
  function DirectionTo(current: Cell, target: Cell): (d: Direction)
    ensures Adjacent(current, target) ==> Step(current, d) == target
    ensures current == target ==> d == Up
  {
    var dx := target.0 - current.0;
    var dy := target.1 - current.1;
    if dx > 0 then Right
    else if dx < 0 then Left
    else if dy > 0 then Down
    else Up
  }

  /** Stepping from p in d and asking for the direction back to p's neighbour gives d. */
  lemma DirectionToStep(p: Cell, d: Direction)
    ensures Adjacent(p, Step(p, d)) && DirectionTo(p, Step(p, d)) == d
  {
  }

  /** snake_pos[:-1]: every segment except the tail (empty for an empty list). */
  function Body(snake: seq<Cell>): (b: seq<Cell>)
    ensures |snake| > 0 ==> |b| == |snake| - 1
    ensures forall c :: c in b ==> c in snake
  {
    if |snake| == 0 then [] else snake[..|snake| - 1]
  }

  /** A cell a walk may enter: inside the window and not in the blocked list. */
  predicate Open(c: Cell, blocked: seq<Cell>) {
    InWindow(c) && c !in blocked
  }

  /**
   * A walk: a non-empty sequence of cells, each adjacent to the one before,
   * every cell after the first open. The first cell itself is never checked.
   */
  predicate IsWalk(p: seq<Cell>, blocked: seq<Cell>) {
    |p| > 0 &&
    forall i :: 0 < i < |p| ==> Adjacent(p[i - 1], p[i]) && Open(p[i], blocked)
  }

  predicate WalkFromTo(p: seq<Cell>, a: Cell, b: Cell, blocked: seq<Cell>) {
    IsWalk(p, blocked) && p[0] == a && p[|p| - 1] == b
  }

  /** b can be reached from a through open cells. */
  ghost predicate Reachable(a: Cell, b: Cell, blocked: seq<Cell>) {
    exists p :: WalkFromTo(p, a, b, blocked)
  }

  /** A set that contains every open neighbour of each of its members. */
  ghost predicate ClosedUnderSteps(s: set<Cell>, blocked: seq<Cell>) {
    forall c, d :: c in s && Open(Step(c, d), blocked) ==> Step(c, d) in s
  }

  lemma ReachableRefl(a: Cell, blocked: seq<Cell>)
    ensures Reachable(a, a, blocked)
  {
    assert WalkFromTo([a], a, a, blocked);
  }

  /** Extending a walk by one open step. */
  lemma ReachableStep(a: Cell, b: Cell, d: Direction, blocked: seq<Cell>)
    requires Reachable(a, b, blocked) && Open(Step(b, d), blocked)
    ensures Reachable(a, Step(b, d), blocked)
  {
    var p :| WalkFromTo(p, a, b, blocked);
    var q := p + [Step(b, d)];
    assert WalkFromTo(q, a, Step(b, d), blocked);
  }

  /** Extending a walk by one open adjacent cell. */
  lemma ReachableAdjacent(a: Cell, b: Cell, c: Cell, blocked: seq<Cell>)
    requires Reachable(a, b, blocked) && Adjacent(b, c) && Open(c, blocked)
    ensures Reachable(a, c, blocked)
  {
    ReachableStep(a, b, DirectionTo(b, c), blocked);
  }

  /** Every cell of a walk that starts inside a step-closed set stays inside it. */
  lemma {:induction false} WalkStaysInside(p: seq<Cell>, s: set<Cell>, blocked: seq<Cell>, i: nat)
    requires IsWalk(p, blocked) && p[0] in s && ClosedUnderSteps(s, blocked)
    requires i < |p|
    ensures p[i] in s
  {
    if i > 0 {
      WalkStaysInside(p, s, blocked, i - 1);
      var d := DirectionTo(p[i - 1], p[i]);
      assert Step(p[i - 1], d) == p[i];
    }
  }

  /** A step-closed set that contains a contains everything reachable from a. */
  lemma ClosedContainsReachable(s: set<Cell>, a: Cell, b: Cell, blocked: seq<Cell>)
    requires a in s && ClosedUnderSteps(s, blocked) && Reachable(a, b, blocked)
    ensures b in s
  {
    var p :| WalkFromTo(p, a, b, blocked);
    WalkStaysInside(p, s, blocked, |p| - 1);
  }

  /** A walk of n steps covers at most n * GridSize pixels of Manhattan distance. */
  lemma {:induction false} WalkManhattanBound(p: seq<Cell>, blocked: seq<Cell>)
    requires IsWalk(p, blocked)
    ensures PixelManhattan(p[0], p[|p| - 1]) <= GridSize * (|p| - 1)
  {
    if |p| > 1 {
      var q := p[..|p| - 1];
      assert IsWalk(q, blocked) by {
        forall i | 0 < i < |q| ensures Adjacent(q[i - 1], q[i]) && Open(q[i], blocked) {
          assert q[i - 1] == p[i - 1] && q[i] == p[i];
        }
      }
      WalkManhattanBound(q, blocked);
      assert Adjacent(p[|p| - 2], p[|p| - 1]);
    }
  }

  /** Every pixel of the window, and the cells a search started at s can ever touch. */
  function WindowCells(): set<Cell> {
    set x: int, y: int | 0 <= x < WindowSize && 0 <= y < WindowSize :: (x, y)
  }

  function Universe(s: Cell): set<Cell> {
    WindowCells() + {s}
  }

  lemma OpenInUniverse(c: Cell, s: Cell, blocked: seq<Cell>)
    requires Open(c, blocked)
    ensures c in Universe(s)
  {
    assert c == (c.0, c.1);
  }

  /** The board cells in row-major order: the k-th is (k % GridCount, k / GridCount) scaled by GridSize. */
  function RowMajorCell(k: int): Cell {
    ((k % GridCount) * GridSize, (k / GridCount) * GridSize)
  }

  function BoardCells(): set<Cell> {
    set k | 0 <= k < GridCount * GridCount :: RowMajorCell(k)
  }

  lemma RowMajorCellIsGridCell(k: int)
    requires 0 <= k < GridCount * GridCount
    ensures IsGridCell(RowMajorCell(k))
  {
    var a, b := k % 30, k / 30;
    assert 0 <= a < 30 && 0 <= b < 30;
    assert (a * 20) % 20 == 0 && (b * 20) % 20 == 0;
  }

  lemma GridCellIsRowMajorCell(c: Cell) returns (k: int)
    requires IsGridCell(c)
    ensures 0 <= k < GridCount * GridCount && RowMajorCell(k) == c
  {
    var a, b := c.0 / 20, c.1 / 20;
    assert c.0 == a * 20 && c.1 == b * 20;
    k := b * 30 + a;
    assert 0 <= a < 30 && 0 <= b < 30;
    assert k % 30 == a && k / 30 == b;
  }

  lemma BoardCellsAreGridCells(c: Cell)
    ensures c in BoardCells() <==> IsGridCell(c)
  {
    if c in BoardCells() {
      var k :| 0 <= k < GridCount * GridCount && RowMajorCell(k) == c;
      RowMajorCellIsGridCell(k);
    }
    if IsGridCell(c) {
      var k := GridCellIsRowMajorCell(c);
      assert RowMajorCell(k) in BoardCells();
    }
  }

  /** A sequence without repetitions has as many distinct members as elements. */
  lemma {:induction false} DistinctCardinality<T>(s: seq<T>)
    requires forall i, j :: 0 <= i < j < |s| ==> s[i] != s[j]
    ensures |set x | x in s| == |s|
  {
    if |s| > 0 {
      var t := s[..|s| - 1];
      DistinctCardinality(t);
      assert (set x | x in s) == (set x | x in t) + {s[|s| - 1]};
      assert s[|s| - 1] !in (set x | x in t);
    }
  }

  /** The board has GridCount * GridCount cells. */
  lemma BoardCellCount()
    ensures |BoardCells()| == GridCount * GridCount
  {
    var n := GridCount * GridCount;
    var s := seq(n, k requires 0 <= k < n => RowMajorCell(k));
    forall i, j | 0 <= i < j < |s| ensures s[i] != s[j] {
      assert s[i] == RowMajorCell(i) && s[j] == RowMajorCell(j);
    }
    DistinctCardinality(s);
    assert (set x | x in s) == BoardCells() by {
      forall x | x in BoardCells() ensures x in s {
        var k :| 0 <= k < n && RowMajorCell(k) == x;
        assert s[k] == x;
      }
    }
  }

  /** An open step from a board cell lands on a board cell. */
  lemma BoardClosedUnderSteps(blocked: seq<Cell>)
    ensures ClosedUnderSteps(BoardCells(), blocked)
  {
    forall c, d | c in BoardCells() && Open(Step(c, d), blocked) ensures Step(c, d) in BoardCells() {
      BoardCellsAreGridCells(c);
      BoardCellsAreGridCells(Step(c, d));
    }
  }

  /** Everything reachable from a board cell is a board cell. */
  lemma ReachableStaysOnBoard(a: Cell, b: Cell, blocked: seq<Cell>)
    requires IsGridCell(a) && Reachable(a, b, blocked)
    ensures IsGridCell(b)
  {
    BoardCellsAreGridCells(a);
    BoardClosedUnderSteps(blocked);
    ClosedContainsReachable(BoardCells(), a, b, blocked);
    BoardCellsAreGridCells(b);
  }

  /** A subset is no larger than its superset. */
  lemma {:induction false} SubsetCardinality<T>(a: set<T>, b: set<T>)
    requires a <= b
    ensures |a| <= |b|
    decreases a
  {
    if a != {} {
      var x :| x in a;
      SubsetCardinality(a - {x}, b - {x});
    }
  }

  /** No cell occurs twice. */
  ghost predicate Distinct(s: seq<Cell>) {
    forall i, j :: 0 <= i < j < |s| ==> s[i] != s[j]
  }

  /** A list has at most as many different members as entries. */
  lemma {:induction false} SeqSetCardinality(s: seq<Cell>)
    ensures |set x | x in s| <= |s|
  {
    if |s| > 0 {
      var t := s[1..];
      SeqSetCardinality(t);
      assert (set x | x in s) == (set x | x in t) + {s[0]};
    }
  }

  /** Adding a cell missing from a list without repetitions keeps it without repetitions. */
  lemma DistinctCons(h: Cell, s: seq<Cell>)
    requires Distinct(s) && h !in s
    ensures Distinct([h] + s)
  {
    var t := [h] + s;
    forall i, j | 0 <= i < j < |t| ensures t[i] != t[j] {
      assert t[j] == s[j - 1];
      if i > 0 {
        assert t[i] == s[i - 1];
      }
    }
  }
}
