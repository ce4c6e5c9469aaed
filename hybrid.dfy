/**
 * The hybrid pathfinder: A* while the snake covers at most half of the grid,
 * the Hamiltonian tour once it covers more, and the tour as a fallback when
 * A* finds no path. The grid dimensions are parameters, because the game
 * object the source reads them from never defines them.
 */
module Hybrid {
  import opened Grid
  import AStar
  import Hamilton

  /** coverage = len(snake_pos) / (width * height) exceeds 0.5, in integers. */
  predicate CoverageAboveHalf(length: int, width: int, height: int) {
    width * height > 0 && 2 * length > width * height
  }

  class HybridPathfinder {
    var hamilton: Hamilton.HamiltonianPathfinder
    var useAstar: bool

    ghost predicate Valid()
      reads this, hamilton
    {
      hamilton.Valid()
    }

    constructor ()
      ensures Valid() && useAstar
    {
      hamilton := new Hamilton.HamiltonianPathfinder();
      useAstar := true;
    }

    /**
     * get_next_move: set use_astar from the coverage, then follow the A* path
     * (its second cell, or its only cell) when one exists; otherwise clear
     * use_astar and take the Hamiltonian move.
     */
    method GetNextMove(snake: seq<Cell>, food: Cell, width: int, height: int) returns (r: Direction)
      requires Valid() && |snake| > 0 && width * height != 0
      modifies this`useAstar
      ensures Valid()
      ensures useAstar <==> !CoverageAboveHalf(|snake|, width, height) && Reachable(snake[0], food, Body(snake))
      ensures useAstar ==> exists p :: (WalkFromTo(p, snake[0], food, Body(snake)) &&
                                      (forall q :: WalkFromTo(q, snake[0], food, Body(snake)) ==> |p| <= |q|) &&
                                      r == DirectionTo(snake[0], if |p| > 1 then p[1] else p[0]))
      ensures useAstar && snake[0] != food ==> Open(Step(snake[0], r), Body(snake))
      ensures useAstar && snake[0] == food ==> r == Up
      ensures !useAstar ==> r == Hamilton.TourMove(snake, food, hamilton.cycle, hamilton.positionToIndex)
    {
      if CoverageAboveHalf(|snake|, width, height) {
        useAstar := false;
      } else {
        useAstar := true;
      }
      if useAstar {
        var path := AStar.FindPath(snake[0], food, snake);
        if path != [] {
          var target := if |path| > 1 then path[1] else path[0];
          r := DirectionTo(snake[0], target);
          if |path| > 1 {
            assert Adjacent(path[0], path[1]) && Open(path[1], Body(snake));
          } else {
            assert snake[0] == food;
          }
          return;
        }
        useAstar := false;
      }
      r := hamilton.GetNextMove(snake, food);
    }
  }
}
