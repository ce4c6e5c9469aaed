/**
 * The Crossy Road player: a square sprite that hops a fixed distance per key
 * press, rides the log it stands on, and loses a life when it dies.
 */
module CrossyPlayer {
  import opened Wrappers
  import opened CrossyConstants
  import CrossyObstacles

  /** Where go_to_start puts the player: centred at the bottom, 20 pixels above the edge. */
  const StartX := ScreenWidth / 2 - PlayerSize / 2
  const StartY := ScreenHeight - PlayerSize - 20

  /** The whole square lies on the screen. */
  predicate OnScreen(x: int, y: int)
  {
    0 <= x && x + PlayerSize <= ScreenWidth && 0 <= y && y + PlayerSize <= ScreenHeight
  }

  /**
   * move as written: the edge test looks at the position before the hop,
   * so a hop from next to an edge can carry the player past it. Returns the
   * new position and score.
   */
  function MoveStep(x: int, y: int, score: int, direction: string): (r: (int, int, int))
    ensures direction == "up" && y > 0 ==> r == (x, y - MoveDistance, score + 10)
    ensures r.2 == score || r.2 == score + 10
    ensures r.0 == x || r.1 == y
    ensures direction != "up" && direction != "down" && direction != "left" && direction != "right" ==> r == (x, y, score)
    ensures direction == "up" && y <= 0 ==> r == (x, y, score)
    ensures direction == "down" ==>
      r == (if y + PlayerSize < ScreenHeight then (x, y + MoveDistance, score) else (x, y, score))
    ensures direction == "left" ==> r == (if x > 0 then (x - MoveDistance, y, score) else (x, y, score))
    ensures direction == "right" ==>
      r == (if x + PlayerSize < ScreenWidth then (x + MoveDistance, y, score) else (x, y, score))
  {
    if direction == "up" && y > 0 then (x, y - MoveDistance, score + 10)
    else if direction == "down" && y + PlayerSize < ScreenHeight then (x, y + MoveDistance, score)
    else if direction == "left" && x > 0 then (x - MoveDistance, y, score)
    else if direction == "right" && x + PlayerSize < ScreenWidth then (x + MoveDistance, y, score)
    else (x, y, score)
  }

  /** One hop down from the start position leaves the player entirely below the screen. */
  lemma MoveStepLeavesScreen()
    ensures OnScreen(StartX, StartY)
    ensures var r := MoveStep(StartX, StartY, 0, "down");
      r.1 == ScreenHeight && !OnScreen(r.0, r.1)
  {
  }

  /** The intended move: hop only when the whole hop stays on the screen. */
  function SafeMoveStep(x: int, y: int, score: int, direction: string): (r: (int, int, int))
  {
    if direction == "up" && y - MoveDistance >= 0 then (x, y - MoveDistance, score + 10)
    else if direction == "down" && y + MoveDistance + PlayerSize <= ScreenHeight then (x, y + MoveDistance, score)
    else if direction == "left" && x - MoveDistance >= 0 then (x - MoveDistance, y, score)
    else if direction == "right" && x + MoveDistance + PlayerSize <= ScreenWidth then (x + MoveDistance, y, score)
    else (x, y, score)
  }

  /** The intended move keeps an on-screen player on the screen and agrees with move wherever move stays on it. */
  lemma SafeMoveStaysOnScreen(x: int, y: int, score: int, direction: string)
    requires OnScreen(x, y)
    ensures var r := SafeMoveStep(x, y, score, direction); OnScreen(r.0, r.1)
    ensures var r := MoveStep(x, y, score, direction);
      OnScreen(r.0, r.1) ==> SafeMoveStep(x, y, score, direction) == r
  {
  }

  /** The position and score after the key presses dirs, in order. */
  function Hops(x: int, y: int, score: int, dirs: seq<string>): (int, int, int)
  {
    if |dirs| == 0 then (x, y, score)
    else
      var p := Hops(x, y, score, dirs[..|dirs| - 1]);
      SafeMoveStep(p.0, p.1, p.2, dirs[|dirs| - 1])
  }

  function Ups(k: nat): (r: seq<string>)
    ensures |r| == k && forall j :: 0 <= j < k ==> r[j] == "up"
  {
    if k == 0 then [] else Ups(k - 1) + ["up"]
  }

  /** Hopping straight up from the start: each of the first nine hops climbs a lane and scores 10. */
  lemma {:induction false} UpHops(k: nat)
    requires k <= 9
    ensures Hops(StartX, StartY, 0, Ups(k)) == (StartX, StartY - k * MoveDistance, 10 * k)
  {
    if k > 0 {
      UpHops(k - 1);
      assert Ups(k)[..k - 1] == Ups(k - 1);
    }
  }

  /** Nine hops up from the start are the fewest that reach the finish line, and they are worth 90 points. */
  lemma FinishLineAfterNineHops()
    ensures var r := Hops(StartX, StartY, 0, Ups(9)); r.1 <= PlayerSize && r.2 == 90
    ensures forall k :: 0 <= k < 9 ==> Hops(StartX, StartY, 0, Ups(k)).1 > PlayerSize
  {
    UpHops(9);
    forall k | 0 <= k < 9
      ensures Hops(StartX, StartY, 0, Ups(k)).1 > PlayerSize
    {
      UpHops(k);
    }
  }

  class Player {
    const skinName: string
    var lives: int
    var score: int
    var timeBonus: int
    /** The log the player is riding, if any. */
    var onLog: Option<CrossyObstacles.Log>
    var x: int
    var y: int

    /** A new player has 3 lives whatever the difficulty, and stands at the start. */
    constructor (skin: string := "frog")
      ensures skinName == skin && lives == 3 && score == 0 && timeBonus == 0
      ensures x == StartX && y == StartY && onLog == None
    {
      skinName := skin;
      lives := 3;
      score := 0;
      timeBonus := 0;
      x := StartX;
      y := StartY;
      onLog := None;
    }

    method GoToStart()
      modifies this
      ensures x == StartX && y == StartY && onLog == None
      ensures lives == old(lives) && score == old(score) && timeBonus == old(timeBonus)
    {
      x := StartX;
      y := StartY;
      onLog := None;
    }

    /**
     * move, with the edge test corrected to look at where the hop lands: at
     * most one hop, 10 points for a hop up, and an on-screen player stays on
     * the screen.
     */
    method Move(direction: string)
      modifies this
      ensures (x, y, score) == SafeMoveStep(old(x), old(y), old(score), direction)
      ensures OnScreen(old(x), old(y)) ==> OnScreen(x, y)
      ensures lives == old(lives) && timeBonus == old(timeBonus) && onLog == old(onLog)
    {
      if OnScreen(x, y) { SafeMoveStaysOnScreen(x, y, score, direction); }
      if direction == "up" && y - MoveDistance >= 0 {
        y := y - MoveDistance;
        score := score + 10;
      } else if direction == "down" && y + MoveDistance + PlayerSize <= ScreenHeight {
        y := y + MoveDistance;
      } else if direction == "left" && x - MoveDistance >= 0 {
        x := x - MoveDistance;
      } else if direction == "right" && x + MoveDistance + PlayerSize <= ScreenWidth {
        x := x + MoveDistance;
      }
    }

    /**
     * die: one life fewer and off any log; with lives left the player goes
     * back to the start, otherwise it stays where it died and the game ends.
     */
    method Die() returns (gameOver: bool)
      modifies this
      ensures lives == old(lives) - 1 && onLog == None
      ensures gameOver <==> lives <= 0
      ensures !gameOver ==> x == StartX && y == StartY
      ensures gameOver ==> x == old(x) && y == old(y)
      ensures score == old(score) && timeBonus == old(timeBonus)
    {
      lives := lives - 1;
      onLog := None;
      if lives > 0 {
        GoToStart();
        return false;
      }
      return true;
    }

    /**
     * update: a player on a log drifts with it; a drift that would take the
     * square off the side of the screen is undone and the player dies.
     */
    method Update()
      modifies this
      ensures old(onLog).None? ==> x == old(x) && y == old(y) && lives == old(lives) && onLog == None
      ensures old(onLog).Some? ==>
        var nx := old(x) + old(onLog).value.speed;
        if 0 <= nx && nx + PlayerSize <= ScreenWidth then
          x == nx && y == old(y) && lives == old(lives) && onLog == old(onLog)
        else
          lives == old(lives) - 1 && onLog == None &&
          (if lives > 0 then x == StartX && y == StartY else x == old(x) && y == old(y))
      ensures score == old(score) && timeBonus == old(timeBonus)
    {
      if onLog.Some? {
        var prevX := x;
        x := x + onLog.value.speed;
        if x < 0 || x + PlayerSize > ScreenWidth {
          x := prevX;
          var _ := Die();
        }
      }
    }

    /** is_at_finish_line: the top edge is within one player height of the top of the screen. */
    function IsAtFinishLine(): (b: bool)
      reads this
      ensures b <==> y <= PlayerSize
    {
      y <= PlayerSize
    }

    /** get_score: the move points plus the time bonus, never below the move points when the bonus is not negative. */
    function GetScore(): (s: int)
      reads this
      ensures timeBonus >= 0 ==> s >= score
      ensures s - timeBonus == score
    {
      score + timeBonus
    }
  }
}
