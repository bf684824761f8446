/** SDK_DelayAtLeastUs, with the DWT cycle counter and with the software loop. The counter is 32 bits
    wide, wraps, and is polled at arbitrary moments; absolute time is an unbounded cycle number, which
    the register shows modulo 2^32. */
module CycleDelay {
  import opened Bits

  /** USEC_TO_COUNT: computed in 64 bits, where the product of two 32-bit values cannot wrap. */
  function UsecToCount(us: nat, hz: nat): nat { us * hz / 1_000_000 }

  /** A count of whole cycles falls short of the time asked for by less than one cycle, and never exceeds it. */
  lemma CountIsTime(us: nat, hz: nat)
    ensures UsecToCount(us, hz) * 1_000_000 <= us * hz < UsecToCount(us, hz) * 1_000_000 + 1_000_000
  {
  }

  /** What the cycle-counter register shows at absolute cycle `t`. */
  function Register(t: nat): nat { t % U32 }

  /** Cycles between one read of the counter and the next. */
  type Gap = g: nat | g >= 1 witness 1

  predicate AtMost(gaps: seq<Gap>, g: nat) {
    forall k | 0 <= k < |gaps| :: gaps[k] <= g
  }

  /** Cycles that pass over the first `polls` gaps. */
  function Elapsed(gaps: seq<Gap>, polls: nat): (cycles: nat)
    requires polls <= |gaps|
    ensures cycles >= polls
  {
    if polls == 0 then 0 else Elapsed(gaps, polls - 1) + gaps[polls - 1]
  }

  // ---- the two waiting loops, one read at a time

  /** Waiting for the counter to overflow, waiting for it to reach the count, and returned. */
  datatype Phase = Overflowing | Reaching | Done

  /** The sum the loops compare with; UINT32_MAX is taken off it when it does not fit the counter. */
  function Target(start: nat, n: nat): nat { n + Register(start) }

  function Count(start: nat, n: nat): nat {
    if Target(start, n) > UINT32_MAX then Target(start, n) - UINT32_MAX else Target(start, n)
  }

  function Poll(phase: Phase, count: nat, shown: nat): Phase {
    match phase
    case Overflowing => if count < shown then Overflowing else Reaching
    case Reaching => if count > shown then Reaching else Done
    case Done => Done
  }

  /** Where a delay of `n` cycles begun at absolute cycle `start` stands after `k` polls. */
  function PhaseAfter(start: nat, n: nat, gaps: seq<Gap>, k: nat): Phase
    requires k <= |gaps|
  {
    if k == 0 then
      if Target(start, n) > UINT32_MAX then Overflowing else Reaching
    else
      Poll(PhaseAfter(start, n, gaps, k - 1), Count(start, n), Register(start + Elapsed(gaps, k)))
  }

  /** What the register shows `e` cycles after `start`. */
  lemma Shown(start: nat, e: nat)
    ensures Register(start) + e < U32 ==> Register(start + e) == Register(start) + e
    ensures U32 <= Register(start) + e < 2 * U32 ==> Register(start + e) == Register(start) + e - U32
  {
    assert start + e == (start / U32) * U32 + (Register(start) + e);
    if Register(start) + e < U32 {
      DivModUnique(start + e, U32, start / U32, Register(start) + e);
    } else if Register(start) + e < 2 * U32 {
      DivModUnique(start + e, U32, start / U32 + 1, Register(start) + e - U32);
    }
  }

  /** Never early: whatever the start value, the wrap and the gaps. */
  lemma {:induction false} NeverEarly(start: nat, n: nat, gaps: seq<Gap>, k: nat)
    requires n <= UINT32_MAX && k <= |gaps|
    ensures var e, phase := Elapsed(gaps, k), PhaseAfter(start, n, gaps, k);
      && (phase == Done ==> k >= 1 && LongEnough(n, e))
      && (phase == Reaching && Target(start, n) > UINT32_MAX ==> Register(start) + e >= U32)
      && (phase == Overflowing ==> Target(start, n) > UINT32_MAX)
    decreases k
  {
    if k > 0 {
      NeverEarly(start, n, gaps, k - 1);
      Shown(start, Elapsed(gaps, k));
    }
  }

  /** Reads at most `g` cycles apart cannot skip the part of the counter's range that the loops wait for. */
  predicate Catchable(start: nat, n: nat, g: nat) {
    var target := Target(start, n);
    if target == 0 then true
    else if target <= UINT32_MAX then (if n == 0 then 1 else 0) + target + g <= U32
    else g <= target - UINT32_MAX && target - UINT32_MAX + g <= U32
  }

  /** Reading on every cycle works, except for a delay of no cycles begun on the counter's last value:
      the next read shows 0, and the loop waits a whole turn for the last value to come back. */
  lemma EveryCycleCatches(start: nat, n: nat)
    requires n <= UINT32_MAX
    ensures Catchable(start, n, 1) <==> !(n == 0 && Register(start) == UINT32_MAX)
  {
  }

  /** Then the wait is over by the first poll after `n` cycles. */
  lemma {:induction false} NotLongWaiting(start: nat, n: nat, gaps: seq<Gap>, g: nat, k: nat)
    requires n <= UINT32_MAX && Catchable(start, n, g) && AtMost(gaps, g) && k <= |gaps|
    ensures var e := Register(start) + Elapsed(gaps, k);
      match PhaseAfter(start, n, gaps, k)
      case Overflowing => e < U32 < Target(start, n) + 1
      case Reaching => if Target(start, n) > UINT32_MAX then U32 <= e <= Target(start, n)
                       else k == 0 || e < Target(start, n)
      case Done => true
    decreases k
  {
    if k > 0 {
      NotLongWaiting(start, n, gaps, g, k - 1);
      Shown(start, Elapsed(gaps, k));
    }
  }

  /** Some poll, at most `limit` cycles from the start, lets the call return. */
  ghost predicate ReturnsBy(start: nat, n: nat, gaps: seq<Gap>, limit: nat) {
    exists k: nat :: k <= |gaps| && PhaseAfter(start, n, gaps, k) == Done && Elapsed(gaps, k) <= limit
  }

  /** Every schedule of enough reads, at most `g` cycles apart, is seen through within `n + g` cycles. */
  ghost predicate Timely(start: nat, n: nat, g: nat) {
    forall gaps: seq<Gap> | |gaps| > n && AtMost(gaps, g) :: ReturnsBy(start, n, gaps, n + g)
  }

  lemma {:induction false} WaitsAtMost(start: nat, n: nat, gaps: seq<Gap>, g: nat, k: nat)
    requires n <= UINT32_MAX && Catchable(start, n, g) && AtMost(gaps, g) && k <= |gaps|
    ensures PhaseAfter(start, n, gaps, k) != Done ==> Elapsed(gaps, k) <= n
    ensures k > n ==> PhaseAfter(start, n, gaps, k) == Done
  {
    NotLongWaiting(start, n, gaps, g, k);
  }

  /** The poll at which the call returns. */
  lemma {:induction false} FirstReturn(start: nat, n: nat, gaps: seq<Gap>, k: nat) returns (first: nat)
    requires k <= |gaps| && PhaseAfter(start, n, gaps, k) == Done
    ensures 1 <= first <= k
    ensures PhaseAfter(start, n, gaps, first) == Done && PhaseAfter(start, n, gaps, first - 1) != Done
  {
    first := k;
    if PhaseAfter(start, n, gaps, k - 1) == Done {
      first := FirstReturn(start, n, gaps, k - 1);
    }
  }

  lemma {:induction false} CatchableReturns(start: nat, n: nat, gaps: seq<Gap>, g: nat)
    requires n <= UINT32_MAX && Catchable(start, n, g) && AtMost(gaps, g) && |gaps| > n
    ensures ReturnsBy(start, n, gaps, n + g)
  {
    WaitsAtMost(start, n, gaps, g, |gaps|);
    var first := FirstReturn(start, n, gaps, |gaps|);
    WaitsAtMost(start, n, gaps, g, first - 1);
  }

  /** Once returned, always returned; and time passes. */
  lemma {:induction false} StaysReturned(start: nat, n: nat, gaps: seq<Gap>, k: nat, m: nat)
    requires k <= m <= |gaps|
    ensures PhaseAfter(start, n, gaps, k) == Done ==> PhaseAfter(start, n, gaps, m) == Done
    ensures Elapsed(gaps, k) + (m - k) <= Elapsed(gaps, m)
    decreases m
  {
    if k < m {
      StaysReturned(start, n, gaps, k, m - 1);
    }
  }

  /** Still waiting when more than `n` cycles have passed, and the next read `g` cycles away: too late. */
  lemma {:induction false} Late(start: nat, n: nat, gaps: seq<Gap>, g: nat, m: nat)
    requires m < |gaps| && gaps[m] == g && PhaseAfter(start, n, gaps, m) != Done && Elapsed(gaps, m) > n
    ensures !ReturnsBy(start, n, gaps, n + g)
  {
    forall k: nat | k <= |gaps| && PhaseAfter(start, n, gaps, k) == Done
      ensures Elapsed(gaps, k) > n + g
    {
      if k <= m {
        StaysReturned(start, n, gaps, k, m);
      } else {
        StaysReturned(start, n, gaps, m + 1, k);
      }
    }
  }

  /** Reads on `ones` cycles in a row, one after a jump, and from then on every `g` cycles. */
  function Skipping(ones: nat, jump: Gap, g: Gap, extra: nat): (gaps: seq<Gap>)
    ensures |gaps| == ones + 1 + extra
  {
    seq(ones, k => 1) + [jump] + seq(extra, k => g)
  }

  lemma {:induction false} SkippingElapsed(ones: nat, jump: Gap, g: Gap, extra: nat, k: nat)
    requires k <= ones + 1
    ensures Elapsed(Skipping(ones, jump, g, extra), k) == if k <= ones then k else ones + jump
    decreases k
  {
    if k > 0 {
      SkippingElapsed(ones, jump, g, extra, k - 1);
    }
  }

  /** A target that fits the counter is read past by jumping from just below it to the next overflow. */
  lemma {:induction false} TargetSkipped(start: nat, n: nat, ones: nat, g: Gap, extra: nat, k: nat)
    requires 0 < Target(start, n) <= UINT32_MAX && ones == (if n == 0 then 0 else n - 1) && k <= ones + 1
    ensures var gaps := Skipping(ones, U32 - Register(start) - ones, g, extra);
      Register(start) + ones < U32 && PhaseAfter(start, n, gaps, k) == Reaching
    decreases k
  {
    if k > 0 {
      TargetSkipped(start, n, ones, g, extra, k - 1);
      SkippingElapsed(ones, U32 - Register(start) - ones, g, extra, k);
      var e := if k <= ones then k else U32 - Register(start);
      Shown(start, e);
      assert Register(start + e) == if k <= ones then Register(start) + k else 0;
    }
  }

  /** An overflow first seen with the count already shown leaves one read too many. */
  lemma {:induction false} OverflowSeenLate(start: nat, n: nat, ones: nat, g: Gap, extra: nat, k: nat)
    requires n <= UINT32_MAX < Target(start, n) && ones == UINT32_MAX - Register(start) && k <= ones + 1
    ensures var gaps := Skipping(ones, Count(start, n) + 1, g, extra);
      PhaseAfter(start, n, gaps, k) == if k <= ones then Overflowing else Reaching
    decreases k
  {
    if k > 0 {
      OverflowSeenLate(start, n, ones, g, extra, k - 1);
      var e := if k <= ones then k else ones + Count(start, n) + 1;
      SkippingElapsed(ones, Count(start, n) + 1, g, extra, k);
      Shown(start, e);
      assert Register(start + e) == if k <= ones then Register(start) + k else Count(start, n);
    }
  }

  lemma {:induction false} CountSkippingShows(start: nat, n: nat, g: Gap, extra: nat, k: nat)
    requires n <= UINT32_MAX < Target(start, n) && Count(start, n) <= UINT32_MAX && 1 <= k <= n + 1
    ensures var gaps, r := Skipping(n, U32 - Count(start, n) + 1, g, extra), Register(start);
      Register(start + Elapsed(gaps, k)) == if k == n + 1 then 0 else if r + k < U32 then r + k else r + k - U32
  {
    SkippingElapsed(n, U32 - Count(start, n) + 1, g, extra, k);
    if k <= n {
      Shown(start, k);
    } else {
      SecondOverflow(start, n + U32 - Count(start, n) + 1);
    }
  }

  /** After the overflow too, the count is read past by jumping from just below it to the next overflow. */
  lemma {:induction false} CountSkipped(start: nat, n: nat, g: Gap, extra: nat, k: nat)
    requires n <= UINT32_MAX < Target(start, n) && Count(start, n) <= UINT32_MAX && k <= n + 1
    ensures var gaps := Skipping(n, U32 - Count(start, n) + 1, g, extra);
      PhaseAfter(start, n, gaps, k) == if k <= n && Register(start) + k < U32 then Overflowing else Reaching
    decreases k
  {
    if k > 0 {
      CountSkipped(start, n, g, extra, k - 1);
      CountSkippingShows(start, n, g, extra, k);
    }
  }

  lemma SecondOverflow(start: nat, e: nat)
    requires Register(start) + e == 2 * U32
    ensures Register(start + e) == 0
  {
    assert start + e == (start / U32 + 2) * U32 + 0;
    DivModUnique(start + e, U32, start / U32 + 2, 0);
  }

  /** The schedule is still waiting at poll `m`, more than `n` cycles after the start, and `g` cycles before
      the next poll. */
  ghost predicate Skips(start: nat, n: nat, g: Gap, gaps: seq<Gap>, m: nat) {
    && |gaps| > n && AtMost(gaps, g) && m < |gaps| && gaps[m] == g
    && PhaseAfter(start, n, gaps, m) != Done && Elapsed(gaps, m) > n
  }

  lemma {:induction false} SkippingSkips(start: nat, n: nat, ones: nat, jump: Gap, g: Gap)
    requires jump <= g && ones + jump > n
    requires PhaseAfter(start, n, Skipping(ones, jump, g, n + 1), ones + 1) != Done
    ensures Skips(start, n, g, Skipping(ones, jump, g, n + 1), ones + 1)
  {
    SkippingElapsed(ones, jump, g, n + 1, ones + 1);
  }

  lemma {:induction false} Skippable(start: nat, n: nat, g: Gap) returns (gaps: seq<Gap>, m: nat)
    requires n <= UINT32_MAX && !Catchable(start, n, g)
    ensures Skips(start, n, g, gaps, m)
  {
    var ones: nat, jump: Gap := n, 1;
    if Target(start, n) <= UINT32_MAX {
      ones := if n == 0 then 0 else n - 1;
      jump := U32 - Register(start) - ones;
      TargetSkipped(start, n, ones, g, n + 1, ones + 1);
    } else if g > Count(start, n) {
      ones, jump := UINT32_MAX - Register(start), Count(start, n) + 1;
      OverflowSeenLate(start, n, ones, g, n + 1, ones + 1);
    } else {
      jump := U32 - Count(start, n) + 1;
      CountSkipped(start, n, g, n + 1, n + 1);
    }
    SkippingSkips(start, n, ones, jump, g);
    gaps, m := Skipping(ones, jump, g, n + 1), ones + 1;
  }

  /** When the code returns in time, whatever the moments of its reads: exactly when it cannot skip. */
  lemma {:induction false} TimelyIffCatchable(start: nat, n: nat, g: Gap)
    requires n <= UINT32_MAX
    ensures Timely(start, n, g) <==> Catchable(start, n, g)
  {
    if Catchable(start, n, g) {
      forall gaps: seq<Gap> | |gaps| > n && AtMost(gaps, g)
        ensures ReturnsBy(start, n, gaps, n + g)
      {
        CatchableReturns(start, n, gaps, g);
      }
    } else {
      var gaps, m := Skippable(start, n, g);
      Late(start, n, gaps, g, m);
    }
  }

  /** The one delay that reading on every cycle does not catch takes a whole turn. */
  lemma {:induction false} WholeTurn(start: nat, gaps: seq<Gap>, k: nat)
    requires Register(start) == UINT32_MAX && AtMost(gaps, 1) && k <= |gaps| && k <= U32
    ensures Elapsed(gaps, k) == k
    ensures PhaseAfter(start, 0, gaps, k) == if k == U32 then Done else Reaching
    decreases k
  {
    if k > 0 {
      WholeTurn(start, gaps, k - 1);
      Shown(start, k);
    }
  }

  // ---- the code

  /** Where the code stands when it stops polling: returned at the first poll that lets it, or out of reads. */
  ghost predicate Polled(start: nat, n: nat, gaps: seq<Gap>, returned: bool, now: nat, polls: nat) {
    && polls <= |gaps| && now == start + Elapsed(gaps, polls)
    && (returned <==> PhaseAfter(start, n, gaps, polls) == Done)
    && (if returned then polls >= 1 && PhaseAfter(start, n, gaps, polls - 1) != Done else polls == |gaps|)
  }

  /** What the schedule of reads decides. */
  lemma {:induction false} PolledInTime(start: nat, n: nat, gaps: seq<Gap>, g: nat, returned: bool, now: nat,
                                        polls: nat)
    requires n <= UINT32_MAX && Polled(start, n, gaps, returned, now, polls)
    requires Catchable(start, n, g) && AtMost(gaps, g)
    ensures (returned ==> now - start <= n + g) && (|gaps| > n ==> returned)
  {
    WaitsAtMost(start, n, gaps, g, polls);
    if returned {
      WaitsAtMost(start, n, gaps, g, polls - 1);
    }
  }

  lemma {:induction false} PolledAllInTime(start: nat, n: nat, gaps: seq<Gap>, returned: bool, now: nat, polls: nat)
    requires n <= UINT32_MAX && Polled(start, n, gaps, returned, now, polls)
    ensures forall g: nat | Catchable(start, n, g) && AtMost(gaps, g) ::
              (returned ==> now - start <= n + g) && (|gaps| > n ==> returned)
  {
    forall g: nat | Catchable(start, n, g) && AtMost(gaps, g)
      ensures (returned ==> now - start <= n + g) && (|gaps| > n ==> returned)
    {
      PolledInTime(start, n, gaps, g, returned, now, polls);
    }
  }

  lemma {:induction false} PolledEveryCycle(start: nat, n: nat, gaps: seq<Gap>, returned: bool, now: nat, polls: nat)
    requires n <= UINT32_MAX && Polled(start, n, gaps, returned, now, polls) && AtMost(gaps, 1)
    ensures if n == 0 && Register(start) == UINT32_MAX
      then (|gaps| >= U32 ==> returned) && (returned ==> now - start == U32)
      else (|gaps| > n ==> returned) && (returned ==> now - start <= n + 1)
  {
    EveryCycleCatches(start, n);
    PolledAllInTime(start, n, gaps, returned, now, polls);
    if n == 0 && Register(start) == UINT32_MAX {
      if polls <= U32 {
        WholeTurn(start, gaps, polls);
      } else {
        WholeTurn(start, gaps, U32);
        StaysReturned(start, n, gaps, U32, polls - 1);
      }
    }
  }

  /** Wait `n` cycles from the first read at absolute cycle `start`; the k-th later read happens
      `gaps[k]` cycles after the one before. `now` is the moment of the last of `polls` polls; `returned`
      is false when the polls given run out with the loop still polling. */
  method DelayCycles(start: nat, n: nat, gaps: seq<Gap>) returns (returned: bool, now: nat, ghost polls: nat)
    requires n <= UINT32_MAX
    ensures Polled(start, n, gaps, returned, now, polls)
    // never early, whatever the start value, the wrap and the gaps
    ensures returned ==> LongEnough(n, now - start)
    // in time if no read can skip the target
    ensures forall g: nat | Catchable(start, n, g) && AtMost(gaps, g) ::
              (returned ==> now - start <= n + g) && (|gaps| > n ==> returned)
  {
    now, polls := start, 0;
    var i := 0;
    var count := n + Register(start);
    if count > UINT32_MAX {
      count := count - UINT32_MAX;
      var waiting := true;
      while waiting
        invariant 0 <= i <= |gaps| && polls == i && now == start + Elapsed(gaps, i)
        invariant PhaseAfter(start, n, gaps, i) == if waiting then Overflowing else Reaching
        decreases |gaps| - i, waiting
      {
        if i == |gaps| {
          PolledAllInTime(start, n, gaps, false, now, i);
          return false, now, i;
        }
        now, i := now + gaps[i], i + 1;
        polls := i;
        waiting := count < Register(now);
      }
    }
    var waiting := true;
    while waiting
      invariant 0 <= i <= |gaps| && polls == i && now == start + Elapsed(gaps, i)
      invariant if waiting then PhaseAfter(start, n, gaps, i) == Reaching
                else i >= 1 && PhaseAfter(start, n, gaps, i - 1) == Reaching && PhaseAfter(start, n, gaps, i) == Done
      decreases |gaps| - i, waiting
    {
      if i == |gaps| {
        PolledAllInTime(start, n, gaps, false, now, i);
        return false, now, i;
      }
      now, i := now + gaps[i], i + 1;
      polls := i;
      waiting := count > Register(now);
    }
    returned := true;
    NeverEarly(start, n, gaps, polls);
    PolledAllInTime(start, n, gaps, true, now, polls);
  }

  /** The whole call, for any time and clock whose count fits the 32-bit counter. */
  method DelayAtLeastUs(us: nat, hz: nat, start: nat, gaps: seq<Gap>) returns (returned: bool, now: nat,
                        ghost polls: nat)
    requires us * hz < U32 * 1_000_000
    ensures us == 0 ==> returned && now == start && polls == 0
    // a cycle is a million units of time and a microsecond hz of them: short of the time by less than a cycle
    ensures us > 0 && returned ==> us * hz < (now - start) * 1_000_000 + 1_000_000
    // and with reads on every cycle past it by at most a cycle, unless the time is less than one cycle and
    // the counter at its end
    ensures us > 0 && returned && AtMost(gaps, 1) && !(us * hz < 1_000_000 && Register(start) == UINT32_MAX) ==>
      (now - start - 1) * 1_000_000 <= us * hz
    ensures us > 0 && |gaps| >= U32 + 1 && AtMost(gaps, 1) ==> returned
    ensures us > 0 ==> Polled(start, UsecToCount(us, hz), gaps, returned, now, polls)
    ensures us > 0 && returned ==> LongEnough(UsecToCount(us, hz), now - start)
    // in time if no read can skip the target
    ensures var n := UsecToCount(us, hz);
      forall g: nat | Catchable(start, n, g) && AtMost(gaps, g) ::
        (returned ==> now - start <= n + g) && (|gaps| > n ==> returned)
    // polled on every cycle, it always returns, and in time unless the count is 0 and the counter at its end
    ensures var n := UsecToCount(us, hz);
      us > 0 && AtMost(gaps, 1) ==>
        && (|gaps| >= (if n == 0 && Register(start) == UINT32_MAX then U32 else n + 1) ==> returned)
        && (returned ==> (now - start <= n + 1 <==> !(n == 0 && Register(start) == UINT32_MAX)))
        && (returned && n == 0 && Register(start) == UINT32_MAX ==> now - start == U32)
  {
    CountIsTime(us, hz);
    if us > 0 {
      returned, now, polls := DelayCycles(start, UsecToCount(us, hz), gaps);
      if AtMost(gaps, 1) {
        PolledEveryCycle(start, UsecToCount(us, hz), gaps, returned, now, polls);
      }
    } else {
      returned, now, polls := true, start, 0;
    }
  }

  /** The exceptional case occurs: 1 us at 32 kHz is less than a cycle, and asked for when the counter
      shows its last value it takes 2^32 cycles, more than a day, instead of one. */
  method ShortDelayTakesATurn() returns (returned: bool, now: nat)
    ensures UsecToCount(1, 32_000) == 0 && Register(UINT32_MAX) == UINT32_MAX
    ensures returned && now - UINT32_MAX == U32
  {
    ghost var polls;
    var gaps: seq<Gap> := seq(U32, k => 1);
    returned, now, polls := DelayAtLeastUs(1, 32_000, UINT32_MAX, gaps);
  }

  /** What every return from a delay of `count` cycles guarantees about the cycles spent in it. */
  predicate LongEnough(count: nat, cycles: nat) { cycles >= count }

  // ---- the software loop, for builds without the counter

  /** Cycles one round of the loop (subtract, compare, branch) is taken to cost. */
  const ROUND_CYCLES: nat := 4

  /** Decrement a 32-bit register until it shows 0: from 0 that takes a whole turn. */
  method DelayLoop(count: nat) returns (rounds: nat)
    requires count < U32
    ensures rounds == if count == 0 then U32 else count
  {
    var r0: int := count;
    rounds := 0;
    var looping := true;
    while looping
      invariant 0 <= r0 < U32 && (looping ==> rounds == 0 || r0 > 0) && (looping || r0 == 0)
      invariant if rounds == 0 then looping && r0 == count
                else rounds + r0 == if count == 0 then U32 else count
      decreases if rounds == 0 then U32 else r0, looping
    {
      r0 := (r0 - 1) % U32;
      rounds := rounds + 1;
      looping := r0 != 0;
    }
  }

  /** The whole call with the loop: short by less than one round, and never the whole turn. */
  method SoftwareDelayAtLeastUs(us: nat, hz: nat) returns (rounds: nat)
    requires us * hz < U32 * 1_000_000
    ensures us == 0 ==> rounds == 0
    // rounds of four cycles: short of the time by less than one round, and past it only if there is just one
    ensures us > 0 ==> us * hz < (4 * rounds + 4) * 1_000_000
    ensures rounds > 1 ==> 4 * rounds * 1_000_000 <= us * hz
    ensures us > 0 ==>
      var n := UsecToCount(us, hz);
      && rounds >= 1
      && LongEnough(n, ROUND_CYCLES * rounds + ROUND_CYCLES - 1)
      && (rounds > 1 ==> ROUND_CYCLES * rounds <= n)
      && (n % ROUND_CYCLES == 0 ==> LongEnough(n, ROUND_CYCLES * rounds))
  {
    rounds := 0;
    CountIsTime(us, hz);
    if us > 0 {
      var count := UsecToCount(us, hz) / 4;
      if count == 0 {
        count := 1;
      }
      rounds := DelayLoop(count);
    }
  }
}
