/** Waiting on the 32-bit tick counter of the interval timer. */
module Pit {

  const WORD: nat := 0x1_0000_0000

  class Timer {
    /** The counter as the processor reads it, and all ticks since start-up. */
    var tick: nat
    ghost var total: nat

    ghost predicate Valid()
      reads this
    {
      tick < WORD && tick == total % WORD
    }

    constructor (start: nat)
      requires start < WORD
      ensures Valid() && tick == start && total == start
    {
      tick, total := start, start;
    }

    /** Sleeps until the next timer interrupt, whose handler advances the counter. */
    method Halt()
      requires Valid()
      modifies this
      ensures Valid() && total == old(total) + 1 && tick == (old(tick) + 1) % WORD
    {
      tick := (tick + 1) % WORD;
      total := total + 1;
    }

    /** Sleeps until the counter has come round to a value below `from`. */
    method WaitForWrap(from: nat)
      requires Valid() && tick == from > 0
      modifies this
      ensures Valid() && tick == 0 && total == old(total) + (WORD - from)
    {
      while tick >= from
        invariant Valid()
        invariant if tick >= from then total == old(total) + (tick - from)
                  else tick == 0 && total == old(total) + (WORD - from)
        decreases if tick >= from then WORD - tick else 0
      {
        Halt();
      }
    }

    method WaitUntil(end: nat)
      requires Valid() && tick <= end < WORD
      modifies this
      ensures Valid() && total == old(total) + (end - old(tick))
    {
      while tick < end
        invariant Valid() && old(tick) <= tick <= end && total == old(total) + (tick - old(tick))
      {
        Halt();
      }
    }

    /** Never returns early: after exactly `delay` ticks where the counter does not wrap on the
        way, and one tick late where it does. */
    method WaitTicks(delay: nat)
      requires Valid() && delay < WORD
      modifies this
      ensures Valid()
      ensures total == old(total) + delay + if old(tick) + delay < WORD then 0 else 1
    {
      var initTick, left := tick, delay;
      if (initTick + left) % WORD < tick {
        WaitForWrap(initTick);
        left := (left - (WORD - 1 - initTick)) % WORD;
        initTick := tick;
      }
      WaitUntil((initTick + left) % WORD);
    }
  }
}
