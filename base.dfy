/**
 * What every snake AI shares: the collision test and the eleven-flag view of
 * the board (danger straight / right / left, the heading, and where the food
 * lies relative to the head).
 */
module Base {
  import opened Grid

  /** Turning right: UP becomes RIGHT, RIGHT becomes DOWN, and so on. */
  function Clockwise(d: Direction): (r: Direction)
    ensures r != d && CounterClockwise(r) == d
  {
    match d
    case Up => Right
    case Right => Down
    case Down => Left
    case Left => Up
  }

  /** Turning left: the inverse of Clockwise. */
  function CounterClockwise(d: Direction): Direction {
    match d
    case Up => Left
    case Left => Down
    case Down => Right
    case Right => Up
  }

  /**
   * _is_collision: the point leaves the window on some side, or it is one of
   * the segments other than the tail.
   */
  function IsCollision(p: Cell, snake: seq<Cell>): (hit: bool)
    ensures hit <==> !Open(p, Body(snake))
  {
    p.0 >= WindowSize || p.0 < 0 || p.1 >= WindowSize || p.1 < 0 || p in Body(snake)
  }

  /** The pixel Manhattan distance is a metric on cells. */
  lemma ManhattanIsMetric(a: Cell, b: Cell, c: Cell)
    ensures PixelManhattan(a, b) == PixelManhattan(b, a)
    ensures PixelManhattan(a, b) == 0 <==> a == b
    ensures PixelManhattan(a, c) <= PixelManhattan(a, b) + PixelManhattan(b, c)
  {
  }

  /**
   * get_state: the eleven flags, in the source's order. The danger flags are
   * spelled out heading by heading, as the source writes them; the lemmas
   * below say what they amount to.
   */
  function GetState(snake: seq<Cell>, heading: Direction, food: Cell): (state: seq<bool>)
    requires |snake| > 0
    ensures |state| == 11
  {
    var head := snake[0];
    var pointL := (head.0 - GridSize, head.1);
    var pointR := (head.0 + GridSize, head.1);
    var pointU := (head.0, head.1 - GridSize);
    var pointD := (head.0, head.1 + GridSize);
    var dirL := heading == Left;
    var dirR := heading == Right;
    var dirU := heading == Up;
    var dirD := heading == Down;
    [
      (dirR && IsCollision(pointR, snake)) || (dirL && IsCollision(pointL, snake)) ||
      (dirU && IsCollision(pointU, snake)) || (dirD && IsCollision(pointD, snake)),
      (dirU && IsCollision(pointR, snake)) || (dirD && IsCollision(pointL, snake)) ||
      (dirL && IsCollision(pointU, snake)) || (dirR && IsCollision(pointD, snake)),
      (dirD && IsCollision(pointR, snake)) || (dirU && IsCollision(pointL, snake)) ||
      (dirR && IsCollision(pointU, snake)) || (dirL && IsCollision(pointD, snake)),
      dirL, dirR, dirU, dirD,
      food.0 < head.0, food.0 > head.0, food.1 < head.1, food.1 > head.1
    ]
  }

  /**
   * Danger straight, right and left are the collision tests of the cell one
   * step ahead, one step clockwise and one step counter-clockwise.
   */
  lemma StateDanger(snake: seq<Cell>, heading: Direction, food: Cell)
    requires |snake| > 0
    ensures var state := GetState(snake, heading, food);
      state[0] == IsCollision(Step(snake[0], heading), snake) &&
      state[1] == IsCollision(Step(snake[0], Clockwise(heading)), snake) &&
      state[2] == IsCollision(Step(snake[0], CounterClockwise(heading)), snake)
  {
    var head := snake[0];
    match heading
    case Right =>
      assert Step(head, Right) == (head.0 + GridSize, head.1);
      assert Step(head, Down) == (head.0, head.1 + GridSize);
      assert Step(head, Up) == (head.0, head.1 - GridSize);
    case Left =>
      assert Step(head, Left) == (head.0 - GridSize, head.1);
      assert Step(head, Up) == (head.0, head.1 - GridSize);
      assert Step(head, Down) == (head.0, head.1 + GridSize);
    case Up =>
      assert Step(head, Up) == (head.0, head.1 - GridSize);
      assert Step(head, Right) == (head.0 + GridSize, head.1);
      assert Step(head, Left) == (head.0 - GridSize, head.1);
    case Down =>
      assert Step(head, Down) == (head.0, head.1 + GridSize);
      assert Step(head, Left) == (head.0 - GridSize, head.1);
      assert Step(head, Right) == (head.0 + GridSize, head.1);
  }

  /** The heading flags are, in order, moving left, right, up and down. */
  lemma StateHeading(snake: seq<Cell>, heading: Direction, food: Cell)
    requires |snake| > 0
    ensures var state := GetState(snake, heading, food);
      state[3] == (heading == Left) && state[4] == (heading == Right) &&
      state[5] == (heading == Up) && state[6] == (heading == Down)
  {
  }

  /** Exactly one flag is set. */
  predicate OneHot(flags: seq<bool>) {
    exists i :: 0 <= i < |flags| && flags[i] && forall j :: 0 <= j < |flags| && j != i ==> !flags[j]
  }

  /** Exactly one of the four heading flags is set. */
  lemma StateHeadingOneHot(snake: seq<Cell>, heading: Direction, food: Cell)
    requires |snake| > 0
    ensures OneHot(GetState(snake, heading, food)[3..7])
  {
    StateHeading(snake, heading, food);
    HeadingFlagsOneHot(GetState(snake, heading, food), heading);
  }

  lemma HeadingFlagsOneHot(state: seq<bool>, heading: Direction)
    requires |state| == 11
    requires state[3] == (heading == Left) && state[4] == (heading == Right)
    requires state[5] == (heading == Up) && state[6] == (heading == Down)
    ensures OneHot(state[3..7])
  {
    var flags := state[3..7];
    var i := match heading case Left => 0 case Right => 1 case Up => 2 case Down => 3;
    forall j | 0 <= j < |flags| && j != i ensures !flags[j] {
      assert flags[j] == state[j + 3];
    }
    assert flags[i] == state[i + 3];
  }

  /**
   * The food flags are, in order, food left of, right of, above and below the
   * head (y grows downwards): never both left and right, never both up and
   * down, and one of each pair is set exactly when the food is off the head's
   * column (row).
   */
  lemma StateFood(snake: seq<Cell>, heading: Direction, food: Cell)
    requires |snake| > 0
    ensures var state := GetState(snake, heading, food);
      state[7] == (food.0 < snake[0].0) && state[8] == (food.0 > snake[0].0) &&
      state[9] == (food.1 < snake[0].1) && state[10] == (food.1 > snake[0].1)
    ensures var state := GetState(snake, heading, food);
      !(state[7] && state[8]) && (state[7] || state[8] <==> food.0 != snake[0].0) &&
      !(state[9] && state[10]) && (state[9] || state[10] <==> food.1 != snake[0].1)
  {
  }
}
