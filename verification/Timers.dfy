/** Timers of the run loop: 32-bit deadlines that wrap around, a sorted list, and the pass that
    runs what is due.  clock, deadline, setAt and delay are the unbounded quantities the 32-bit
    ones stand for; no branch of the code looks at them. */
module Timers {
  import opened Words
  import opened Arith

  const WRAP := 0x1_0000_0000
  const HALF := 0x8000_0000

  /** The difference ticks - now as a signed 32-bit number. */
  function Delta(now: u32, ticks: u32): int {
    var d := (ticks as int - now) % WRAP;
    if d < HALF then d else d - WRAP
  }

  /** Upper bits of a tick value relative to now. */
  function ReconstructHigherBits(now: u32, ticks: u32): int {
    if Delta(now, ticks) >= 0 then
      if ticks >= now then 0 else 1
    else
      if ticks < now then 0 else -1
  }

  /** The order add_timer compares by. */
  predicate Before(now: u32, a: u32, b: u32) {
    var ha, hb := ReconstructHigherBits(now, a), ReconstructHigherBits(now, b);
    ha < hb || (ha == hb && a < b)
  }

  /** The deadline is less than half the counter range away from the clock. */
  predicate InWindow(deadline: int, clock: int) {
    -HALF <= deadline - clock < HALF
  }

  /** With the upper bits, the 32-bit value is the true deadline exactly inside the window. */
  lemma ReconstructedIff(clock: nat, deadline: int)
    ensures var now, ticks := clock % WRAP, deadline % WRAP;
            clock - now + ReconstructHigherBits(now, ticks) * WRAP + ticks == deadline
            <==> InWindow(deadline, clock)
  {
    var now, ticks := clock % WRAP, deadline % WRAP;
    var q := deadline / WRAP - clock / WRAP;
    assert deadline - clock == WRAP * q + (ticks - now);
    DivAdd(-q, deadline - clock, WRAP);
    assert (ticks - now) % WRAP == (deadline - clock) % WRAP;
  }

  /** Inside the window the comparison orders by true deadline. */
  lemma OrdersByDeadline(clock: nat, a: int, b: int)
    requires InWindow(a, clock) && InWindow(b, clock)
    ensures Before(clock % WRAP, a % WRAP, b % WRAP) <==> a < b
  {
    ReconstructedIff(clock, a);
    ReconstructedIff(clock, b);
  }

  /** The due test of the pass, against the captured time. */
  predicate NotDue(now: u32, timeout: u32) {
    var high := ReconstructHigherBits(now, timeout);
    high > 0 || (high == 0 && timeout > now)
  }

  lemma DueIffReached(clock: nat, deadline: int)
    requires InWindow(deadline, clock)
    ensures NotDue(clock % WRAP, deadline % WRAP) <==> clock < deadline
  {
    ReconstructedIff(clock, deadline);
  }

  /** The due test for any distance: only the distance modulo the counter range counts. */
  lemma NotDueIff(clock: nat, deadline: int)
    ensures NotDue(clock % WRAP, deadline % WRAP) <==> 0 < (deadline - clock) % WRAP < HALF
  {
    var now, ticks := clock % WRAP, deadline % WRAP;
    var q := deadline / WRAP - clock / WRAP;
    assert deadline - clock == WRAP * q + (ticks - now);
    DivAdd(q, ticks - now, WRAP);
  }

  /** How the due test takes a deadline, against a captured clock value. */
  ghost predicate TakenForDue(deadline: int, captured: int) {
    !(0 < (deadline - captured) % WRAP < HALF)
  }

  /** Less than the counter range ahead, a deadline is taken for due exactly if it is reached, or
      lies half the range or more after the captured time. */
  lemma TakenForDueIff(deadline: int, captured: int)
    requires -HALF <= deadline - captured < WRAP
    ensures TakenForDue(deadline, captured) <==> deadline <= captured || deadline - captured >= HALF
  {
  }
}
