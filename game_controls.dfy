/**
 * The mines control panel: the risk label for the chosen number of mines,
 * the safe-cell figure it shows and when the start button is enabled.
 */
module GameControls {
  import opened Database
  import MinesReveal

  datatype Risk = Low | Medium | High | Extreme

  /** The label and its colour, as the panel shows them. */
  datatype RiskLevel = RiskLevel(risk: Risk, text: string, color: string)

  /** Position of a risk on the scale, lowest first. */
  function Rank(r: Risk): nat {
    match r
    case Low => 0
    case Medium => 1
    case High => 2
    case Extreme => 3
  }

  /** Up to 5 mines is low risk, up to 10 medium, up to 15 high, more is extreme. */
  function GetRiskLevel(mines: int): (level: RiskLevel)
    ensures level.risk == Low <==> mines <= 5
    ensures level.risk == Medium <==> 5 < mines <= 10
    ensures level.risk == High <==> 10 < mines <= 15
    ensures level.risk == Extreme <==> 15 < mines
  {
    if mines <= 5 then RiskLevel(Low, "Low", "text-green-400")
    else if mines <= 10 then RiskLevel(Medium, "Medium", "text-yellow-400")
    else if mines <= 15 then RiskLevel(High, "High", "text-orange-400")
    else RiskLevel(Extreme, "Extreme", "text-red-400")
  }

  /** More mines never means a lower risk label. */
  lemma RiskMonotone(a: int, b: int)
    requires a <= b
    ensures Rank(GetRiskLevel(a).risk) <= Rank(GetRiskLevel(b).risk)
  {
  }

  /** The "Safe Cells" figure: `25 - selectedMines`. */
  function SafeCellsShown(selectedMines: int): int {
    GRID_SIZE - selectedMines
  }

  /**
   * For a game the start route created, the figure is the number of cells
   * of the board that hold no mine.
   */
  lemma SafeCellsShownIsSafeBoard(g: MinesGame)
    requires WellFormedGame(g)
    ensures SafeCellsShown(g.minesCount) == |Range(GRID_SIZE) - Elements(g.minePositions)|
    ensures 0 <= SafeCellsShown(g.minesCount) <= GRID_SIZE
  {
    MinesReveal.SafeBoardSize(g.minePositions);
  }

  /** The start button is disabled while a game runs or one is being started. */
  function StartDisabled(gameStatus: string, isStartingGame: bool): (disabled: bool)
    ensures !disabled <==> gameStatus != "active" && !isStartingGame
  {
    gameStatus == "active" || isStartingGame
  }
}
