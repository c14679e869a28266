/**
 * The frame-time statistics (src/stats.rs): a count of events and their total
 * time, both starting at zero, updated in place by `add`. The ghost history
 * `times` records every time added, so the fields can be stated as the
 * history's length and sum.
 */
module Timing {

  /** One more than the largest `u32`. */
  const U32Limit: nat := 0x1_0000_0000
  /** One more than the largest `usize` on a 64-bit target. */
  const UsizeLimit: nat := 0x1_0000_0000_0000_0000

  /** The total of a history of times. */
  function Sum(times: seq<nat>): nat {
    if |times| == 0 then 0 else Sum(times[..|times| - 1]) + times[|times| - 1]
  }

  /** The total of two histories, one after the other, is the sum of their totals. */
  lemma {:induction false} SumAppend(a: seq<nat>, b: seq<nat>)
    ensures Sum(a + b) == Sum(a) + Sum(b)
    decreases |b|
  {
    if |b| == 0 {
      assert a + b == a;
    } else {
      var b' := b[..|b| - 1];
      assert (a + b)[..|a + b| - 1] == a + b';
      SumAppend(a, b');
    }
  }

  /** A longer history never has a smaller total: the total time never decreases. */
  lemma SumGrows(a: seq<nat>, b: seq<nat>)
    ensures Sum(a) <= Sum(a + b)
  {
    SumAppend(a, b);
  }

  /** Every time in the history counts toward the total. */
  lemma {:induction false} TimeBelowSum(times: seq<nat>, k: nat)
    requires k < |times|
    ensures times[k] <= Sum(times)
    decreases |times|
  {
    if k < |times| - 1 {
      TimeBelowSum(times[..|times| - 1], k);
    }
  }

  class Stats {
    /** `num_events: u32` */
    var numEvents: nat
    /** `total_time: usize` */
    var totalTime: nat
    /** Every time added so far, oldest first. */
    ghost var times: seq<nat>

    /** The count is the number of times added and the total is their sum, each within its Rust type. */
    ghost predicate Valid()
      reads this
    {
      numEvents == |times| && totalTime == Sum(times) && numEvents < U32Limit && totalTime < UsizeLimit
    }

    /** `Stats::default()`: no events and no time. */
    constructor ()
      ensures Valid() && times == []
      ensures numEvents == 0 && totalTime == 0
    {
      numEvents := 0;
      totalTime := 0;
      times := [];
    }

    /**
     * `add`: one more event, `time` more total time. Rust's `+=` panics on
     * overflow in a debug build, so neither field may overflow.
     */
    method Add(time: nat)
      requires Valid()
      requires numEvents + 1 < U32Limit && totalTime + time < UsizeLimit
      modifies this
      ensures Valid() && times == old(times) + [time]
      ensures numEvents == old(numEvents) + 1 && totalTime == old(totalTime) + time
    {
      numEvents := numEvents + 1;
      totalTime := totalTime + time;
      times := times + [time];
      assert times[..|times| - 1] == old(times);
    }
  }
}
