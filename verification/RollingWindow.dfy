/** Counting times in a closed window, for the two limiters that cap actions per window. */
module RollingWindow {
  /** How many of `times` fall in [lo, hi]. */
  function CountIn(times: seq<int>, lo: int, hi: int): nat {
    if times == [] then 0
    else CountIn(times[..|times| - 1], lo, hi) + (if lo <= times[|times| - 1] <= hi then 1 else 0)
  }

  /** How many fall at or after `cutoff`. */
  function CountSince(times: seq<int>, cutoff: int): nat {
    if times == [] then 0
    else CountSince(times[..|times| - 1], cutoff) + (if times[|times| - 1] >= cutoff then 1 else 0)
  }

  /** No window of the given length holds more than `cap`. */
  ghost predicate Capped(times: seq<int>, window: nat, cap: nat) {
    forall lo, hi | hi <= lo + window :: CountIn(times, lo, hi) <= cap
  }

  lemma CountInSnoc(times: seq<int>, t: int, lo: int, hi: int)
    ensures CountIn(times + [t], lo, hi) == CountIn(times, lo, hi) + (if lo <= t <= hi then 1 else 0)
  {
    assert (times + [t])[..|times|] == times;
  }

  lemma {:induction false} CountMonotone(times: seq<int>, lo: int, lower: int, hi: int)
    requires lower <= lo
    ensures CountIn(times, lo, hi) <= CountIn(times, lower, hi)
  {
    if times != [] {
      CountMonotone(times[..|times| - 1], lo, lower, hi);
    }
  }

  /** Acting at `now` with fewer than `cap` in the window behind it keeps every window capped. */
  lemma OneMoreStaysCapped(times: seq<int>, now: int, lower: int, window: nat, cap: nat)
    requires Capped(times, window, cap) && lower == now - window
    requires forall hi :: CountIn(times, lower, hi) < cap
    ensures Capped(times + [now], window, cap)
  {
    forall lo, hi | hi <= lo + window
      ensures CountIn(times + [now], lo, hi) <= cap
    {
      CountInSnoc(times, now, lo, hi);
      if lo <= now <= hi {
        CountMonotone(times, lo, lower, hi);
      }
    }
  }
}
