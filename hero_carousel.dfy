/**
 * The home page carousel: an index over its slides that the arrows move
 * one step either way, wrapping round, and that a timer advances.
 */
module HeroCarousel {
  import Utils

  /** The carousel shows three slides. */
  const SLIDE_COUNT: int := 3

  predicate InRange(i: int) {
    0 <= i < SLIDE_COUNT
  }

  /**
   * `(prev + 1) % slides.length`, JavaScript's remainder: the forward
   * arrow, and also the update the five-second timer applies.
   */
  function NextSlide(prev: int): (next: int)
    ensures InRange(prev) ==> InRange(next)
    ensures 0 <= prev < SLIDE_COUNT - 1 ==> next == prev + 1
    ensures prev == SLIDE_COUNT - 1 ==> next == 0
  {
    Utils.JsRem(prev + 1, SLIDE_COUNT)
  }

  /** `(prev - 1 + slides.length) % slides.length`. */
  function PrevSlide(prev: int): (next: int)
    ensures InRange(prev) ==> InRange(next)
    ensures 0 < prev < SLIDE_COUNT ==> next == prev - 1
    ensures prev == 0 ==> next == SLIDE_COUNT - 1
  {
    Utils.JsRem(prev - 1 + SLIDE_COUNT, SLIDE_COUNT)
  }

  /** The two arrows undo each other. */
  lemma NextPrevInverse(i: int)
    requires InRange(i)
    ensures PrevSlide(NextSlide(i)) == i
    ensures NextSlide(PrevSlide(i)) == i
  {
  }

  /** The index after `n` presses of the forward arrow. */
  function Advance(i: int, n: nat): int
    decreases n
  {
    if n == 0 then i else Advance(NextSlide(i), n - 1)
  }

  /** `n` forward steps land on `(i + n) mod SLIDE_COUNT`. */
  lemma {:induction false} AdvanceIsRemainder(i: int, n: nat)
    requires InRange(i)
    ensures Advance(i, n) == (i + n) % SLIDE_COUNT
    decreases n
  {
    if n > 0 {
      AdvanceIsRemainder(NextSlide(i), n - 1);
    }
  }

  /** Going forward once per slide brings the carousel back where it was. */
  lemma FullTurn(i: int)
    requires InRange(i)
    ensures Advance(i, SLIDE_COUNT) == i
  {
    AdvanceIsRemainder(i, SLIDE_COUNT);
  }
}
