/**
 * The game tick: move the head one cell in the current heading, end the game
 * on a collision, otherwise grow onto the food (new food, score + 1) or drop
 * the tail. `update` drives it from the keyboard or a pathfinder, `_move` from
 * the reinforcement-learning agent's one-hot action, and `calculate_reward`
 * scores the step for the agent.
 */
module Game {
  import opened Grid
  import opened Wrappers
  import Base
  import Agent

  const InitialSpeed: int := 10
  const MaxSpeed: int := 20

  const RewardEat: int := 10
  const RewardDeath: int := -10
  const RewardCloser: int := 1
  const RewardFarther: int := -1

  /** The centre cell: (grid_count // 2) * GRID_SIZE on both axes. */
  const Center: Cell := ((GridCount / 2) * GridSize, (GridCount / 2) * GridSize)

  /** While the snake has fewer segments than the board has cells, some cell is free. */
  lemma FreeCellExists(snake: seq<Cell>)
    requires |snake| < GridCount * GridCount
    ensures exists x: int, y: int :: 0 <= x < WindowSize && 0 <= y < WindowSize && IsGridCell((x, y)) && (x, y) !in snake
  {
    BoardCellCount();
    SeqSetCardinality(snake);
    var taken := set x | x in snake;
    if BoardCells() <= taken {
      SubsetCardinality(BoardCells(), taken);
      assert false;
    }
    var c :| c in BoardCells() && c !in taken;
    BoardCellsAreGridCells(c);
    assert IsGridCell((c.0, c.1)) && (c.0, c.1) !in snake;
  }

  /**
   * generate_food: random grid-aligned draws until one misses the snake. The
   * draw is a nondeterministic choice; it exists while a cell is free.
   */
  method GenerateFood(snake: seq<Cell>) returns (food: Cell)
    requires |snake| < GridCount * GridCount
    ensures IsGridCell(food) && food !in snake
  {
    FreeCellExists(snake);
    var x: int, y: int :| 0 <= x < WindowSize && 0 <= y < WindowSize && IsGridCell((x, y)) && (x, y) !in snake;
    food := (x, y);
  }

  class SnakeGame {
    var snakePos: seq<Cell>
    var snakeDirection: Direction
    var foodPos: Cell
    var score: int
    var gameOver: bool
    var currentSpeed: int
    /** The last distance to the food; None stands for float('inf'). */
    var prevFoodDistance: Option<nat>
    /** state == GameState.PLAYING */
    var playing: bool
    /** An AI agent is attached. */
    var aiMode: bool

    /**
     * What every tick keeps: the snake is a non-empty list of distinct board
     * cells, and the food is a board cell off the snake.
     */
    ghost predicate Valid()
      reads this
    {
      |snakePos| > 0 && Distinct(snakePos) &&
      (forall i :: 0 <= i < |snakePos| ==> IsGridCell(snakePos[i])) &&
      IsGridCell(foodPos) && foodPos !in snakePos
    }

    /** __init__: title screen, no agent, initial speed, then reset_game. */
    constructor ()
      ensures Valid() && !playing && !aiMode && currentSpeed == InitialSpeed
      ensures snakePos == [Center] && snakeDirection == Right && score == 0 && !gameOver
    {
      playing := false;
      aiMode := false;
      currentSpeed := InitialSpeed;
      snakePos := [Center];
      foodPos := (0, 0);
      new;
      ResetGame();
    }

    /** "Start Game" on the title screen: switch to PLAYING and reset the game. */
    method StartGame()
      modifies this
      ensures Valid() && playing && aiMode == old(aiMode) && currentSpeed == old(currentSpeed)
      ensures snakePos == [Center] && snakeDirection == Right && score == 0 && !gameOver
      ensures prevFoodDistance == None
    {
      playing := true;
      ResetGame();
    }

    /**
     * A choice on the AI menu: switch to PLAYING and reset the game. Only the
     * reinforcement-learning choice attaches an agent; the other three leave
     * the agent as it was.
     */
    method StartAIGame(reinforcement: bool)
      modifies this
      ensures Valid() && playing && currentSpeed == old(currentSpeed)
      ensures aiMode == (old(aiMode) || reinforcement)
      ensures snakePos == [Center] && snakeDirection == Right && score == 0 && !gameOver
      ensures prevFoodDistance == None
    {
      if reinforcement {
        aiMode := true;
      }
      playing := true;
      ResetGame();
    }

    /** reset_game (positions and score): a one-cell snake at the centre heading right. */
    method ResetGame()
      modifies this
      ensures Valid()
      ensures snakePos == [Center] && snakeDirection == Right && score == 0 && !gameOver
      ensures prevFoodDistance == None
      ensures playing == old(playing) && aiMode == old(aiMode) && currentSpeed == old(currentSpeed)
    {
      snakePos := [Center];
      snakeDirection := Right;
      foodPos := GenerateFood(snakePos);
      score := 0;
      gameOver := false;
      prevFoodDistance := None;
    }

    /**
     * The part update and _move share: step the head, stop on a collision,
     * otherwise insert the new head and either eat or pop the tail.
     */
    method Advance() returns (done: bool, ateFood: bool)
      requires Valid() && |snakePos| < GridCount * GridCount - 1
      modifies this
      ensures Valid()
      ensures snakeDirection == old(snakeDirection) && currentSpeed == old(currentSpeed)
      ensures prevFoodDistance == old(prevFoodDistance)
      ensures playing == old(playing) && aiMode == old(aiMode)
      ensures done == Base.IsCollision(Step(old(snakePos)[0], snakeDirection), old(snakePos))
      ensures done ==> gameOver && !ateFood
      ensures done ==> snakePos == old(snakePos) && score == old(score) && foodPos == old(foodPos)
      ensures !done ==> gameOver == old(gameOver) && (ateFood <==> Step(old(snakePos)[0], snakeDirection) == old(foodPos))
      ensures !done && ateFood ==> snakePos == [Step(old(snakePos)[0], snakeDirection)] + old(snakePos) && score == old(score) + 1
      ensures !done && !ateFood ==> snakePos == [Step(old(snakePos)[0], snakeDirection)] + Body(old(snakePos))
      ensures !done && !ateFood ==> score == old(score) && foodPos == old(foodPos)
    {
      var newHead := Step(snakePos[0], snakeDirection);
      done := Base.IsCollision(newHead, snakePos);
      ateFood := false;
      if done {
        gameOver := true;
        return;
      }
      assert IsGridCell(newHead) by {
        assert IsGridCell(snakePos[0]);
      }
      ateFood := newHead == foodPos;
      if ateFood {
        DistinctCons(newHead, snakePos);
        snakePos := [newHead] + snakePos;
        score := score + 1;
        foodPos := GenerateFood(snakePos);
      } else {
        var body := Body(snakePos);
        assert Distinct(body);
        DistinctCons(newHead, body);
        snakePos := [newHead] + body;
        assert foodPos !in body;
      }
    }

    /**
     * update: nothing happens off the PLAYING screen or after game over; an AI
     * move, when one is offered, replaces the heading; in manual mode eating
     * sets the speed to min(MAX_SPEED, INITIAL_SPEED + score // 5).
     */
    method Update(aiMove: Option<Direction>)
      requires Valid() && |snakePos| < GridCount * GridCount - 1
      modifies this
      ensures Valid()
      ensures !old(playing) || old(gameOver) ==> unchanged(this)
      ensures old(playing) && !old(gameOver) ==>
        snakeDirection == (if aiMode && aiMove.Some? then aiMove.value else old(snakeDirection))
      ensures old(playing) && !old(gameOver) && Base.IsCollision(Step(old(snakePos)[0], snakeDirection), old(snakePos)) ==>
        gameOver && snakePos == old(snakePos) && score == old(score) && foodPos == old(foodPos) && currentSpeed == old(currentSpeed)
      ensures old(playing) && !old(gameOver) && !Base.IsCollision(Step(old(snakePos)[0], snakeDirection), old(snakePos)) ==>
        !gameOver && snakePos[0] == Step(old(snakePos)[0], snakeDirection) &&
        if Step(old(snakePos)[0], snakeDirection) == old(foodPos) then
          snakePos == [snakePos[0]] + old(snakePos) && score == old(score) + 1 &&
          currentSpeed == (if aiMode then old(currentSpeed) else Min(MaxSpeed, InitialSpeed + score / 5))
        else
          snakePos == [snakePos[0]] + Body(old(snakePos)) && score == old(score) && foodPos == old(foodPos) &&
          currentSpeed == old(currentSpeed)
      ensures playing == old(playing) && aiMode == old(aiMode) && prevFoodDistance == old(prevFoodDistance)
    {
      if !playing || gameOver {
        return;
      }
      if aiMode && aiMove.Some? {
        snakeDirection := aiMove.value;
      }
      var done, ateFood := Advance();
      if !done && ateFood && !aiMode {
        currentSpeed := Min(MaxSpeed, InitialSpeed + score / 5);
      }
    }

    /**
     * calculate_reward: death first, then eating; otherwise store the new pixel
     * distance to the food and reward getting strictly closer.
     */
    method CalculateReward(ateFood: bool, died: bool) returns (reward: int)
      requires |snakePos| > 0
      modifies this`prevFoodDistance
      ensures died ==> reward == RewardDeath && prevFoodDistance == old(prevFoodDistance)
      ensures !died && ateFood ==> reward == RewardEat && prevFoodDistance == old(prevFoodDistance)
      ensures !died && !ateFood ==> prevFoodDistance == Some(PixelManhattan(snakePos[0], foodPos))
      ensures !died && !ateFood ==>
        (reward == RewardCloser <==> old(prevFoodDistance).None? || PixelManhattan(snakePos[0], foodPos) < old(prevFoodDistance).value)
      ensures !died && !ateFood ==> reward == RewardCloser || reward == RewardFarther
    {
      if died {
        return RewardDeath;
      }
      if ateFood {
        return RewardEat;
      }
      var head := snakePos[0];
      var oldDistance := prevFoodDistance;
      var newDistance := Abs(head.0 - foodPos.0) + Abs(head.1 - foodPos.1);
      prevFoodDistance := Some(newDistance);
      if oldDistance.None? || newDistance < oldDistance.value {
        return RewardCloser;
      }
      return RewardFarther;
    }

    /**
     * _move: with an agent attached the one-hot action turns the heading; a
     * collision ends the game with the death reward, otherwise the step is
     * scored by calculate_reward. Returns (reward, done, score).
     */
    method Move(action: seq<int>) returns (reward: int, done: bool, newScore: int)
      requires Valid() && |snakePos| < GridCount * GridCount - 1
      modifies this
      ensures Valid()
      ensures snakeDirection == if aiMode then Agent.ActionToDirection(old(snakeDirection), action) else old(snakeDirection)
      ensures done == Base.IsCollision(Step(old(snakePos)[0], snakeDirection), old(snakePos))
      ensures done ==> reward == RewardDeath && gameOver && snakePos == old(snakePos) && score == old(score)
      ensures done ==> foodPos == old(foodPos) && prevFoodDistance == old(prevFoodDistance)
      ensures !done ==> snakePos[0] == Step(old(snakePos)[0], snakeDirection) && gameOver == old(gameOver)
      ensures !done && snakePos[0] == old(foodPos) ==>
        reward == RewardEat && score == old(score) + 1 && snakePos == [snakePos[0]] + old(snakePos) &&
        prevFoodDistance == old(prevFoodDistance)
      ensures !done && snakePos[0] != old(foodPos) ==>
        score == old(score) && snakePos == [snakePos[0]] + Body(old(snakePos)) && foodPos == old(foodPos) &&
        prevFoodDistance == Some(PixelManhattan(snakePos[0], foodPos))
      ensures !done && snakePos[0] != old(foodPos) ==>
        (reward == RewardCloser <==> old(prevFoodDistance).None? || PixelManhattan(snakePos[0], foodPos) < old(prevFoodDistance).value) &&
        (reward == RewardCloser || reward == RewardFarther)
      ensures newScore == score && currentSpeed == old(currentSpeed)
      ensures playing == old(playing) && aiMode == old(aiMode)
    {
      if aiMode {
        snakeDirection := Agent.ActionToDirection(snakeDirection, action);
      }
      var ateFood;
      done, ateFood := Advance();
      if done {
        return RewardDeath, true, score;
      }
      reward := CalculateReward(ateFood, done);
      return reward, done, score;
    }
  }

  function Min(a: int, b: int): int {
    if a < b then a else b
  }
}
