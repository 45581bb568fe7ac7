/**
 * The mines betting panel: the bet input is clamped to the configured
 * limits, the auto-cash-out input keeps only multipliers above 1, and the
 * quick-bet buttons are offered only when they can be placed.
 */
module BettingPanel {
  import opened Wrappers

  /** The quick-bet buttons. */
  const QUICK_BET_OPTIONS: seq<int> := [100, 500, 1000, 5000]

  /**
   * `Math.max(minBet, Math.min(maxBet, parseInt(value) || 0))`.  `parsed`
   * is `parseInt`'s result, `None` for NaN; NaN and 0 both become 0.
   */
  function HandleBetChange(parsed: Option<int>, minBet: int, maxBet: int): (bet: int)
    ensures minBet <= maxBet ==> minBet <= bet <= maxBet
    ensures minBet <= maxBet && parsed.Some? && minBet <= parsed.value <= maxBet ==> bet == parsed.value
    ensures parsed.None? && minBet <= maxBet ==> bet == if 0 < minBet then minBet else if maxBet < 0 then maxBet else 0
    ensures minBet <= maxBet && parsed.Some? && parsed.value < minBet ==> bet == minBet
    ensures minBet <= maxBet && parsed.Some? && parsed.value > maxBet ==> bet == maxBet
  {
    var amount := parsed.GetOr(0);
    var capped := if maxBet < amount then maxBet else amount;
    if minBet < capped then capped else minBet
  }

  /**
   * The stored auto-cash-out multiplier: `parseFloat`'s result (`None` for
   * NaN) when it is above 1, otherwise nothing.
   */
  function HandleAutoCashOutChange(parsed: Option<real>): (autoCashOut: Option<real>)
    ensures autoCashOut.Some? <==> parsed.Some? && parsed.value > 1.0
    ensures autoCashOut.Some? ==> autoCashOut == parsed && autoCashOut.value > 1.0
  {
    if parsed.None? || parsed.value <= 1.0 then None else parsed
  }

  /** A quick-bet button is disabled during a game or when the amount exceeds the points. */
  function QuickBetDisabled(amount: int, gameStatus: string, userPoints: int): (disabled: bool)
    ensures !disabled <==> gameStatus != "active" && amount <= userPoints
  {
    gameStatus == "active" || amount > userPoints
  }

  /**
   * Outside a game, the buttons on offer are exactly the options the user
   * can afford, and none is on offer while a game is running.
   */
  lemma QuickBetsOnOffer(gameStatus: string, userPoints: int)
    ensures gameStatus == "active" ==>
      forall i :: 0 <= i < |QUICK_BET_OPTIONS| ==> QuickBetDisabled(QUICK_BET_OPTIONS[i], gameStatus, userPoints)
    ensures gameStatus != "active" && userPoints >= 5000 ==>
      forall i :: 0 <= i < |QUICK_BET_OPTIONS| ==> !QuickBetDisabled(QUICK_BET_OPTIONS[i], gameStatus, userPoints)
    ensures userPoints < 100 ==>
      forall i :: 0 <= i < |QUICK_BET_OPTIONS| ==> QuickBetDisabled(QUICK_BET_OPTIONS[i], gameStatus, userPoints)
  {
  }

  /** Clamping twice gives what clamping once gave. */
  lemma ClampIdempotent(parsed: Option<int>, minBet: int, maxBet: int)
    requires minBet <= maxBet
    ensures HandleBetChange(Some(HandleBetChange(parsed, minBet, maxBet)), minBet, maxBet)
         == HandleBetChange(parsed, minBet, maxBet)
  {
  }
}
