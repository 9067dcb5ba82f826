/** The oldest `nearest`, which rounds a bit width with one bit trick,
    (w + 7) AND NOT (w - 1) in 8-bit arithmetic, instead of comparing it
    with 8, 16 and 32. */
module BitTrick {

  import LegacyDisplay

  /** nearest of the oldest display package; uint8 arithmetic wraps, so
      w - 1 is 255 for w = 0. The result is always 0 or a power of two from
      8 to 128, and 0 exactly when w is 0 or w + 7 wraps past 255. */
  function Nearest(w: bv8): (r: bv8)
    ensures r == 0 || r == 8 || r == 16 || r == 32 || r == 64 || r == 128
    ensures r == 0 <==> w == 0 || w >= 249
  {
    (w + 7) & !(w - 1)
  }

  /** It keeps the cases its comment lists: 1-7 give 8 and 9-15 give 16;
      8 and 16 stay as they are. */
  lemma MatchesComment(w: bv8)
    ensures 1 <= w <= 7 ==> Nearest(w) == 8
    ensures 9 <= w <= 15 ==> Nearest(w) == 16
    ensures w == 8 || w == 16 ==> Nearest(w) == w
  {
  }

  /** Up to 16 bits it agrees with the comparison-based nearest. */
  lemma AgreesUpToSixteen(w: bv8)
    requires 1 <= w <= 16
    ensures Nearest(w) == LegacyDisplay.Nearest(w)
  {
  }

  /** The comment's "and so on" does not hold: 17 bits round down to 8,
      where the comparison-based nearest (and its test table) give 32. */
  lemma Seventeen()
    ensures Nearest(17) == 8
    ensures LegacyDisplay.Nearest(17) == 32
    ensures Nearest(17) < 17
  {
  }

  /** Zero bits wrap to zero rather than rounding up to 8. */
  lemma Zero()
    ensures Nearest(0) == 0 && LegacyDisplay.Nearest(0) == 8
  {
  }
}
