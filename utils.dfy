/**
 * Client helpers: splitting a duration into hours, minutes and seconds,
 * and drawing a spinner section with the table's weights.
 */
module Utils {
  import opened Constants

  /** JavaScript's `%`: the remainder takes the sign of the dividend. */
  function JsRem(a: int, b: int): (r: int)
    requires b > 0
    ensures a >= 0 ==> 0 <= r < b && r == a % b
    ensures a < 0 ==> -b < r <= 0 && r == -((-a) % b)
  {
    if a >= 0 then a % b else -((-a) % b)
  }

  datatype TimeParts = TimeParts(hours: int, minutes: int, seconds: int)

  /**
   * `formatTimeRemaining`: whole seconds are `floor(ms / 1000)`; hours are
   * `floor(seconds / 3600)`, minutes `floor((seconds % 3600) / 60)` and
   * seconds `seconds % 60`, with `%` as in JavaScript.
   */
  function FormatTimeRemaining(ms: int): (t: TimeParts)
    ensures ms >= 0 ==> t.hours * 3600 + t.minutes * 60 + t.seconds == ms / 1000
    ensures ms >= 0 ==> 0 <= t.minutes < 60 && 0 <= t.seconds < 60 && t.hours >= 0
  {
    var totalSeconds := ms / 1000;
    var hours := totalSeconds / 3600;
    var minutes := JsRem(totalSeconds, 3600) / 60;
    var seconds := JsRem(totalSeconds, 60);
    TimeParts(hours, minutes, seconds)
  }

  /**
   * Before the deadline the parts read back as the whole seconds left; a
   * negative duration is split into parts that are each negative or zero,
   * and they no longer add up.
   */
  lemma PastDeadlineParts()
    ensures FormatTimeRemaining(-1000) == TimeParts(-1, -1, -1)
  {
  }

  /**
   * The loop of `getWeightedRandomSection` over a table: the scaled draw
   * `r` minus the weights in table order until what is left is not
   * positive; that index is chosen, and index 0 when the loop runs out.
   */
  method WeightedIndex(sections: seq<SpinnerSection>, r: real) returns (index: int)
    requires |sections| > 0
    requires forall i :: 0 <= i < |sections| ==> sections[i].probability > 0
    ensures 0 <= index < |sections|
    ensures r <= TotalWeight(sections) as real ==>
      && r <= PrefixWeight(sections, index + 1) as real
      && forall k :: 1 <= k <= index ==> r > PrefixWeight(sections, k) as real
    ensures r > TotalWeight(sections) as real ==> index == 0
  {
    var random := r;
    var i := 0;
    while i < |sections|
      invariant 0 <= i <= |sections|
      invariant random == r - PrefixWeight(sections, i) as real
      invariant forall k :: 1 <= k <= i ==> r > PrefixWeight(sections, k) as real
    {
      random := random - sections[i].probability as real;
      if random <= 0.0 {
        PrefixWeightMonotone(sections, i + 1, |sections|);
        return i;
      }
      i := i + 1;
    }
    return 0;
  }

  /**
   * `getWeightedRandomSection`: `draw` stands for `Math.random()`.  The
   * draw is scaled by the total weight and the section is the first whose
   * running weight reaches it; if the scaled draw exceeds the total weight
   * no section is reached and the first one is returned.
   */
  method GetWeightedRandomSection(draw: real) returns (section: SpinnerSection, index: int)
    ensures 0 <= index < |SPINNER_SECTIONS| && section == SPINNER_SECTIONS[index]
    ensures var r := draw * TotalWeight(SPINNER_SECTIONS) as real;
      && (r <= TotalWeight(SPINNER_SECTIONS) as real ==>
            && r <= PrefixWeight(SPINNER_SECTIONS, index + 1) as real
            && forall k :: 1 <= k <= index ==> r > PrefixWeight(SPINNER_SECTIONS, k) as real)
      && (r > TotalWeight(SPINNER_SECTIONS) as real ==> index == 0)
      && (r <= SPINNER_SECTIONS[0].probability as real ==> index == 0)
  {
    TableShape();
    var totalWeight := TotalWeight(SPINNER_SECTIONS);
    index := WeightedIndex(SPINNER_SECTIONS, draw * totalWeight as real);
    section := SPINNER_SECTIONS[index];
  }

  /**
   * `Math.random()` lies in [0, 1), so the scaled draw stays below the
   * total weight and the fallback to the first section is never taken.
   */
  lemma DrawStaysBelowTotal(draw: real)
    requires 0.0 <= draw < 1.0
    ensures 0.0 <= draw * TotalWeight(SPINNER_SECTIONS) as real < TotalWeight(SPINNER_SECTIONS) as real
  {
    TableShape();
  }
}
