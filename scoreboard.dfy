/**
 * The Pong scoreboard: two point counters, a reset, and the rule that
 * declares a winner once a player reaches the winning score.
 */
module PongScoreBoard {

  const DefaultWinningScore := 11

  /**
   * get_winner's rule: 1 once player 1 has reached the winning score, else 2
   * once player 2 has, else 0. Player 1 is looked at first.
   */
  function Winner(player1Score: int, player2Score: int, winningScore: int): (w: int)
    ensures w == 1 <==> player1Score >= winningScore
    ensures w == 2 <==> player1Score < winningScore <= player2Score
    ensures w == 0 <==> player1Score < winningScore && player2Score < winningScore
  {
    if player1Score >= winningScore then 1
    else if player2Score >= winningScore then 2
    else 0
  }

  /** Once there is a winner, more points (never negative) for either side keep a winner. */
  lemma WinnerStays(p1: int, p2: int, q1: int, q2: int, winningScore: int)
    requires Winner(p1, p2, winningScore) != 0
    requires p1 <= q1 && p2 <= q2
    ensures Winner(q1, q2, winningScore) != 0
    ensures Winner(p1, p2, winningScore) == 1 ==> Winner(q1, q2, winningScore) == 1
  {
  }

  class ScoreBoard {
    const screenWidth: int
    const screenHeight: int
    var player1Score: int
    var player2Score: int

    constructor (screenWidth: int, screenHeight: int)
      ensures this.screenWidth == screenWidth && this.screenHeight == screenHeight
      ensures player1Score == 0 && player2Score == 0
    {
      this.screenWidth := screenWidth;
      this.screenHeight := screenHeight;
      player1Score := 0;
      player2Score := 0;
    }

    /** update_score: points go to the named player; any other player number is ignored. */
    method UpdateScore(player: int, points: int := 1)
      modifies this
      ensures player == 1 ==> player1Score == old(player1Score) + points && player2Score == old(player2Score)
      ensures player == 2 ==> player2Score == old(player2Score) + points && player1Score == old(player1Score)
      ensures player != 1 && player != 2 ==> player1Score == old(player1Score) && player2Score == old(player2Score)
    {
      if player == 1 {
        player1Score := player1Score + points;
      } else if player == 2 {
        player2Score := player2Score + points;
      }
    }

    method ResetScores()
      modifies this
      ensures player1Score == 0 && player2Score == 0
    {
      player1Score := 0;
      player2Score := 0;
    }

    /** get_winner: the rule of Winner on the current scores. */
    function GetWinner(winningScore: int := DefaultWinningScore): int
      reads this
    {
      Winner(player1Score, player2Score, winningScore)
    }
  }
}
