/**
 * The reinforcement-learning agent's action encoding: a one-hot vector of
 * three entries meaning "keep going", "turn right" and "turn left".
 */
module Agent {
  import opened Grid
  import Base

  /** clock_wise: the headings in clockwise order. */
  const ClockWise: seq<Direction> := [Right, Down, Left, Up]

  /** clock_wise.index(direction). */
  function ClockIndex(d: Direction): (i: nat)
    ensures i < 4 && ClockWise[i] == d
  {
    match d
    case Right => 0
    case Down => 1
    case Left => 2
    case Up => 3
  }

  /**
   * _action_to_direction: [1, 0, 0] keeps the heading, [0, 1, 0] takes the next
   * heading clockwise, anything else the previous one (index arithmetic mod 4).
   */
  function ActionToDirection(heading: Direction, action: seq<int>): (d: Direction)
    ensures action == [1, 0, 0] ==> d == heading
    ensures action != [1, 0, 0] && action == [0, 1, 0] ==> d == Base.Clockwise(heading)
    ensures action != [1, 0, 0] && action != [0, 1, 0] ==> d == Base.CounterClockwise(heading)
  {
    var idx := ClockIndex(heading);
    if action == [1, 0, 0] then ClockWise[idx]
    else if action == [0, 1, 0] then ClockWise[(idx + 1) % 4]
    else ClockWise[(idx - 1) % 4]
  }

  /**
   * _get_action: a fresh [0, 0, 0] with one entry set. The index is the random
   * draw randint(0, 2) when exploring and the network's argmax otherwise; both
   * draws are inputs here.
   */
  method GetAction(exploring: bool, randomMove: int, predictedMove: int) returns (finalMove: seq<int>)
    requires 0 <= randomMove <= 2 && 0 <= predictedMove <= 2
    ensures |finalMove| == 3
    ensures exists i :: 0 <= i < 3 && finalMove[i] == 1 && forall j :: 0 <= j < 3 && j != i ==> finalMove[j] == 0
    ensures finalMove[if exploring then randomMove else predictedMove] == 1
  {
    finalMove := [0, 0, 0];
    var move;
    if exploring {
      move := randomMove;
    } else {
      move := predictedMove;
    }
    finalMove := finalMove[move := 1];
    assert finalMove[move] == 1;
  }
}
