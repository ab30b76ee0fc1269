/**
 * Cool-down ("Auslaufen"): each cool-down hour restores a fixed amount of
 * freshness, capped at the ceiling; the loop stops once the ceiling is
 * reached or the hours are used up, and reports the hours left over.
 */
module Regeneration {
  import opened Units

  /** Freshness restored by one cool-down hour. */
  const FRESHNESS_PER_HOUR: int := 13

  /**
   * Spends cool-down hours one at a time while `freshness` is below
   * `maxFreshness`; returns the new freshness and the hours not spent.
   */
  method Regenerate(freshness: int, maxFreshness: int, hours: int) returns (newFreshness: int, hoursLeft: int)
    // nothing to do: returned unchanged
    ensures freshness >= maxFreshness || hours <= 0 ==> newFreshness == freshness && hoursLeft == hours
    // the loop's exit condition
    ensures newFreshness >= maxFreshness || hoursLeft <= 0
    // hours only go down, and not below zero when there were any
    ensures hours >= 0 ==> 0 <= hoursLeft <= hours
    ensures hours < 0 ==> hoursLeft == hours
    // freshness never drops, and every spent hour added 13 up to the ceiling
    ensures newFreshness >= freshness
    ensures freshness < maxFreshness ==> newFreshness == Min(maxFreshness, freshness + FRESHNESS_PER_HOUR * (hours - hoursLeft))
    ensures freshness <= maxFreshness ==> newFreshness <= maxFreshness
    // no hour is spent once the ceiling is reached
    ensures hoursLeft < hours ==> freshness + FRESHNESS_PER_HOUR * (hours - hoursLeft - 1) < maxFreshness
    // in closed form, from a freshness at or below the ceiling
    ensures freshness <= maxFreshness ==> newFreshness == Min(maxFreshness, freshness + FRESHNESS_PER_HOUR * Max(0, hours))
  {
    newFreshness, hoursLeft := freshness, hours;
    while newFreshness < maxFreshness && hoursLeft > 0
      invariant hours >= 0 ==> 0 <= hoursLeft <= hours
      invariant hours < 0 ==> hoursLeft == hours
      invariant hoursLeft == hours || freshness < maxFreshness
      invariant freshness < maxFreshness ==> newFreshness == Min(maxFreshness, freshness + FRESHNESS_PER_HOUR * (hours - hoursLeft))
      invariant hoursLeft == hours ==> newFreshness == freshness
      invariant hoursLeft < hours ==> freshness + FRESHNESS_PER_HOUR * (hours - hoursLeft - 1) < maxFreshness
      decreases hoursLeft
    {
      newFreshness := newFreshness + FRESHNESS_PER_HOUR;
      if newFreshness > maxFreshness {
        newFreshness := maxFreshness;
      }
      hoursLeft := hoursLeft - 1;
    }
  }
}
