/** The Crossy Road screen, sprite sizes and difficulty table. */
module CrossyConstants {
  const ScreenWidth := 800
  const ScreenHeight := 600
  const PlayerSize := 40
  const CarWidth := 80
  const CarHeight := 40
  const LogWidth := 120
  const LogHeight := 40
  const LaneHeight := 60
  const MoveDistance := 60
  const LogSpeed := 3

  datatype Settings = Settings(carFrequency: int, startingSpeed: int, speedIncrement: int, lives: int)

  const DifficultySettings: map<string, Settings> := map[
    "easy" := Settings(30, 3, 1, 5),
    "medium" := Settings(20, 5, 2, 3),
    "hard" := Settings(15, 7, 3, 1)
  ]
}
