/**
 * A Pong paddle: a rectangle that moves vertically by its velocity each
 * frame and is pushed back inside the screen.
 */
module PongPaddle {

  /**
   * The clamping of update: a top above the screen is moved to 0, then a
   * bottom below the screen is moved up to the screen's height. When the
   * paddle is taller than the screen the second rule wins.
   */
  function Clamp(top: int, height: int, screenHeight: int): (r: int)
    ensures 0 <= top && top + height <= screenHeight ==> r == top
    ensures height <= screenHeight ==> 0 <= r && r + height <= screenHeight
    ensures top + height > screenHeight ==> r + height == screenHeight
    ensures top < 0 && height <= screenHeight ==> r == 0
  {
    var t := if top < 0 then 0 else top;
    if t + height > screenHeight then screenHeight - height else t
  }

  /** Clamping a clamped position changes nothing. */
  lemma ClampIdempotent(top: int, height: int, screenHeight: int)
    ensures Clamp(Clamp(top, height, screenHeight), height, screenHeight) == Clamp(top, height, screenHeight)
  {
  }

  class Paddle {
    var x: int
    var y: int
    var width: int
    var height: int
    var speed: int
    var score: int
    var velocity: int

    constructor (x: int, y: int, width: int := 15, height: int := 90, speed: int := 5)
      ensures this.x == x && this.y == y && this.width == width && this.height == height
      ensures this.speed == speed && score == 0 && velocity == 0
    {
      this.x := x;
      this.y := y;
      this.width := width;
      this.height := height;
      this.speed := speed;
      score := 0;
      velocity := 0;
    }

    method MoveUp()
      modifies this
      ensures velocity == -speed
      ensures x == old(x) && y == old(y) && width == old(width) && height == old(height)
      ensures speed == old(speed) && score == old(score)
    {
      velocity := -speed;
    }

    method MoveDown()
      modifies this
      ensures velocity == speed
      ensures x == old(x) && y == old(y) && width == old(width) && height == old(height)
      ensures speed == old(speed) && score == old(score)
    {
      velocity := speed;
    }

    method Stop()
      modifies this
      ensures velocity == 0
      ensures x == old(x) && y == old(y) && width == old(width) && height == old(height)
      ensures speed == old(speed) && score == old(score)
    {
      velocity := 0;
    }

    /**
     * update: move by the velocity, then keep the rectangle on the screen.
     * A paddle no taller than the screen ends fully on it.
     */
    method Update(screenHeight: int)
      modifies this
      ensures y == Clamp(old(y) + velocity, height, screenHeight)
      ensures height <= screenHeight ==> 0 <= y && y + height <= screenHeight
      ensures x == old(x) && width == old(width) && height == old(height)
      ensures speed == old(speed) && velocity == old(velocity) && score == old(score)
    {
      y := y + velocity;
      if y < 0 {
        y := 0;
      }
      if y + height > screenHeight {
        y := screenHeight - height;
      }
    }
  }
}
