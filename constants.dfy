/** The prize table of the spinner roulette (`SPINNER_SECTIONS`). */
module Constants {

  /** One slice of the wheel: its prize in points, its colour and its weight. */
  datatype SpinnerSection = SpinnerSection(value: int, color: string, probability: int)

  const SPINNER_SECTIONS: seq<SpinnerSection> := [
    SpinnerSection(0, "#4B5563", 40),
    SpinnerSection(10, "#3B82F6", 25),
    SpinnerSection(20, "#8B5CF6", 15),
    SpinnerSection(50, "#EC4899", 10),
    SpinnerSection(100, "#F59E0B", 7),
    SpinnerSection(1000, "#10B981", 3)
  ]

  /** The weights of the first `n` sections added up. */
  function PrefixWeight(sections: seq<SpinnerSection>, n: nat): int
    requires n <= |sections|
  {
    if n == 0 then 0 else PrefixWeight(sections, n - 1) + sections[n - 1].probability
  }

  /** The sum the weighted draw scales by (`reduce` over the probabilities). */
  function TotalWeight(sections: seq<SpinnerSection>): int {
    PrefixWeight(sections, |sections|)
  }

  /**
   * The table has six sections whose weights are positive and add up to
   * 100, so a weight reads as a percentage; prizes rise strictly down the
   * table while weights never rise.
   */
  lemma TableShape()
    ensures |SPINNER_SECTIONS| == 6
    ensures TotalWeight(SPINNER_SECTIONS) == 100
    ensures forall i :: 0 <= i < |SPINNER_SECTIONS| ==> SPINNER_SECTIONS[i].probability > 0
    ensures forall i, j :: 0 <= i < j < |SPINNER_SECTIONS| ==>
      SPINNER_SECTIONS[i].value < SPINNER_SECTIONS[j].value &&
      SPINNER_SECTIONS[i].probability >= SPINNER_SECTIONS[j].probability
  {
    var s := SPINNER_SECTIONS;
    assert PrefixWeight(s, 1) == 40;
    assert PrefixWeight(s, 2) == 65;
    assert PrefixWeight(s, 3) == 80;
    assert PrefixWeight(s, 4) == 90;
    assert PrefixWeight(s, 5) == 97;
  }

  /** With positive weights, prefix sums grow with the prefix. */
  lemma {:induction false} PrefixWeightMonotone(sections: seq<SpinnerSection>, m: nat, n: nat)
    requires m <= n <= |sections|
    requires forall i :: 0 <= i < |sections| ==> sections[i].probability > 0
    ensures PrefixWeight(sections, m) <= PrefixWeight(sections, n)
    ensures m < n ==> PrefixWeight(sections, m) < PrefixWeight(sections, n)
    decreases n
  {
    if m < n {
      PrefixWeightMonotone(sections, m, n - 1);
    }
  }
}
