/**
 * Crossy Road obstacles: cars drive in from the right edge and logs float
 * across a water lane; each is removed (killed) once it has left the screen.
 * A sprite's rectangle is its top-left corner plus the fixed sprite size.
 */
module CrossyObstacles {
  import opened CrossyConstants

  class Car {
    var x: int
    var y: int
    const speed: int
    /** Still in its sprite groups: false once kill() has run. */
    var alive: bool

    /** A new car enters at the right edge of the screen, in its lane. */
    constructor (speed: int, laneY: int)
      ensures x == ScreenWidth && y == laneY && this.speed == speed && alive
    {
      x := ScreenWidth;
      y := laneY;
      this.speed := speed;
      alive := true;
    }

    /** update: drive left by the speed; the car is removed once its right edge is past 0. */
    method Update()
      modifies this
      ensures x == old(x) - speed && y == old(y)
      ensures alive <==> old(alive) && x + CarWidth >= 0
    {
      x := x - speed;
      if x + CarWidth < 0 {
        alive := false;
      }
    }
  }

  class Log {
    var x: int
    var y: int
    /** Signed speed: positive to the right, negative to the left. */
    const speed: int
    const movingRight: bool
    var alive: bool

    /** A log enters just off the edge it moves away from. */
    constructor (speed: int, laneY: int, movingRight: bool := true)
      ensures this.speed == (if movingRight then speed else -speed)
      ensures this.movingRight == movingRight && y == laneY && alive
      ensures x == (if movingRight then -LogWidth else ScreenWidth)
      ensures x + LogWidth <= 0 || x >= ScreenWidth
    {
      this.speed := if movingRight then speed else -speed;
      this.movingRight := movingRight;
      if movingRight {
        x := -LogWidth;
      } else {
        x := ScreenWidth;
      }
      y := laneY;
      alive := true;
    }

    /**
     * update: drift by the signed speed; the log is removed only once it is
     * entirely past the edge it is travelling towards.
     */
    method Update()
      modifies this
      ensures x == old(x) + speed && y == old(y)
      ensures alive <==> old(alive) && !Gone(x, movingRight)
    {
      x := x + speed;
      if (movingRight && x > ScreenWidth) || (!movingRight && x + LogWidth < 0) {
        alive := false;
      }
    }
  }

  /** A log at x is past the far edge of its travel direction. */
  predicate Gone(x: int, movingRight: bool)
  {
    if movingRight then x > ScreenWidth else x + LogWidth < 0
  }

  /** A log that has just entered is not gone, and a gone log does not overlap the screen. */
  lemma GoneIsOffScreen(x: int, movingRight: bool)
    ensures Gone(x, movingRight) ==> x >= ScreenWidth || x + LogWidth <= 0
    ensures !Gone(if movingRight then -LogWidth else ScreenWidth, movingRight)
  {
  }
}
