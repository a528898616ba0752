/**
 * The wait between two polls in `run`: the monitor sleeps for the check
 * interval in slices of at most five seconds and announces the remaining
 * time at multiples of five and during the last five seconds.
 */
module Countdown {

  function Min(a: int, b: int): int {
    if a < b then a else b
  }

  /** The remaining times the loop sees, one per iteration. */
  function Remaining(r: int): seq<int>
    decreases if r > 0 then r else 0
  {
    if r <= 0 then [] else [r] + Remaining(r - Min(5, r))
  }

  /** The sleep slices, `min(5, remaining)` per iteration. */
  function Schedule(r: int): seq<int>
    decreases if r > 0 then r else 0
  {
    if r <= 0 then [] else [Min(5, r)] + Schedule(r - Min(5, r))
  }

  /** The remaining times that are printed: those divisible by five and those of at most five. */
  function Announced(r: int): seq<int>
    decreases if r > 0 then r else 0
  {
    if r <= 0 then []
    else (if r % 5 == 0 || r <= 5 then [r] else []) + Announced(r - Min(5, r))
  }

  function Sum(xs: seq<int>): int {
    if xs == [] then 0 else xs[0] + Sum(xs[1..])
  }

  /**
   * The countdown loop: starting from the check interval, announce, sleep
   * `min(5, remaining)` and subtract, until nothing remains.
   */
  method Wait(checkInterval: int) returns (slices: seq<int>, announced: seq<int>)
    ensures slices == Schedule(checkInterval)
    ensures announced == Announced(checkInterval)
  {
    var remaining := checkInterval;
    slices := [];
    announced := [];
    while remaining > 0
      invariant slices + Schedule(remaining) == Schedule(checkInterval)
      invariant announced + Announced(remaining) == Announced(checkInterval)
      decreases remaining
    {
      ghost var r := remaining;
      if remaining % 5 == 0 || remaining <= 5 {
        announced := announced + [remaining];
      }
      var sleepTime := Min(5, remaining);
      slices := slices + [sleepTime];
      remaining := remaining - sleepTime;
      assert Schedule(r) == [sleepTime] + Schedule(remaining);
      assert Announced(r) == (if r % 5 == 0 || r <= 5 then [r] else []) + Announced(remaining);
    }
  }

  /**
   * The loop ends after one slice per five seconds (rounded up); every slice
   * lasts more than zero and at most five seconds, all but the last exactly
   * five, and together they last the whole interval (none for a
   * non-positive interval).
   */
  lemma {:induction false} ScheduleShape(r: int)
    ensures |Schedule(r)| == (if r > 0 then (r + 4) / 5 else 0)
    ensures forall i :: 0 <= i < |Schedule(r)| ==> 0 < Schedule(r)[i] <= 5
    ensures forall i :: 0 <= i < |Schedule(r)| - 1 ==> Schedule(r)[i] == 5
    ensures Sum(Schedule(r)) == (if r > 0 then r else 0)
    decreases if r > 0 then r else 0
  {
    if r > 0 {
      ScheduleShape(r - Min(5, r));
    }
  }

  /**
   * The last announcement is at most five seconds; for an interval that is
   * a multiple of five every remaining time is announced, and otherwise only
   * the last one.
   */
  lemma {:induction false} AnnouncedShape(r: int)
    ensures r > 0 ==> |Announced(r)| > 0 && Announced(r)[|Announced(r)| - 1] <= 5
    ensures r % 5 == 0 ==> Announced(r) == Remaining(r)
    ensures r % 5 != 0 ==> Announced(r) == (if r > 0 then [(r - 1) % 5 + 1] else [])
    decreases if r > 0 then r else 0
  {
    if r > 5 {
      AnnouncedShape(r - 5);
      assert (r - 5) % 5 == r % 5;
      assert r % 5 != 0 ==> (r - 6) % 5 == (r - 1) % 5;
    } else if r > 0 {
      assert Announced(r) == [r] + Announced(0);
    }
  }
}
