/**
 * The Crossy Road game counters: a reset that reads the difficulty table,
 * and the level-up that pays a bonus, speeds the cars up and sends the
 * player back to the start.
 */
module CrossyGame {
  import opened CrossyConstants
  import CrossyPlayer

  /** Game score after n level-ups from level 1: 100 times each level reached. */
  function LevelBonus(n: nat): nat
  {
    if n == 0 then 0 else LevelBonus(n - 1) + 100 * (n + 1)
  }

  /** The bonus has the closed form 100 * (2 + 3 + ... + (n + 1)). */
  lemma {:induction false} LevelBonusClosed(n: nat)
    ensures LevelBonus(n) == 50 * (n + 1) * (n + 2) - 100
  {
    if n > 0 {
      LevelBonusClosed(n - 1);
    }
  }

  class Game {
    var difficulty: string
    var settings: Settings
    var carSpeed: int
    var lives: int
    var level: int
    var gameOver: bool
    var score: int
    var player: CrossyPlayer.Player

    /** Since the last reset, the score and the car speed follow the level reached. */
    ghost predicate Valid()
      reads this
    {
      level >= 1 && score == LevelBonus(level - 1)
      && carSpeed == settings.startingSpeed + (level - 1) * settings.speedIncrement
    }

    /** A new game is reset with the default character and difficulty. */
    constructor ()
      ensures Valid() && fresh(player)
      ensures difficulty == "medium" && settings == DifficultySettings["medium"]
      ensures carSpeed == 5 && lives == 3 && level == 1 && score == 0 && !gameOver
    {
      difficulty := "medium";
      settings := DifficultySettings["medium"];
      carSpeed := 0;
      lives := 0;
      level := 1;
      gameOver := false;
      score := 0;
      player := new CrossyPlayer.Player();
      new;
      ResetGame();
    }

    /**
     * reset_game: a new player and the difficulty's car speed and lives,
     * level 1, score 0, not over. The player's own lives stay at 3.
     */
    method ResetGame(character: string := "frog", difficulty: string := "medium")
      requires difficulty in DifficultySettings
      modifies this
      ensures Valid() && fresh(player)
      ensures player.lives == 3 && player.skinName == character
      ensures player.x == CrossyPlayer.StartX && player.y == CrossyPlayer.StartY
      ensures this.difficulty == difficulty && settings == DifficultySettings[difficulty]
      ensures carSpeed == settings.startingSpeed && lives == settings.lives
      ensures level == 1 && score == 0 && !gameOver
    {
      player := new CrossyPlayer.Player(character);
      this.difficulty := difficulty;
      settings := DifficultySettings[difficulty];
      carSpeed := settings.startingSpeed;
      lives := settings.lives;
      level := 1;
      gameOver := false;
      score := 0;
    }

    /**
     * level_up: one level more, a bonus of 100 times the new level, faster
     * cars, and the player back at the start.
     */
    method LevelUp()
      requires Valid()
      modifies this, player
      ensures Valid()
      ensures level == old(level) + 1 && score == old(score) + 100 * level
      ensures carSpeed == old(carSpeed) + settings.speedIncrement
      ensures player == old(player) && player.x == CrossyPlayer.StartX && player.y == CrossyPlayer.StartY
      ensures player.lives == old(player.lives) && player.score == old(player.score)
      ensures settings == old(settings) && lives == old(lives) && gameOver == old(gameOver)
    {
      level := level + 1;
      score := score + 100 * level;
      carSpeed := carSpeed + settings.speedIncrement;
      player.GoToStart();
    }
  }
}
