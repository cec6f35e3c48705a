/**
 * The adaptive rate limiter of the Part-out-Value checker: an exponentially
 * backed-off delay kept between a floor and a ceiling, a count of consecutive
 * failures, and a sliding one-minute window of request timestamps (seconds).
 * Delays are in milliseconds and modelled as exact reals.
 */
module RateLimit {
  import opened Seqs

  const BaseWaitTimeMs: real := 5000.0
  const MaxWaitTimeMs: real := 60000.0
  const MinWaitTimeMs: real := 3000.0
  /** jitter is drawn from plus or minus this fraction of the current delay */
  const WaitJitterPercent: real := 0.2
  const BackoffMultiplier: real := 2.0
  const SuccessReductionFactor: real := 0.9
  const MaxRequestsPerMinute: nat := 10
  const MaxConsecutiveFailures: nat := 3
  const ExtendedPauseSeconds: real := 300.0
  /** length of the throttling window, in seconds */
  const WindowSeconds: real := 60.0

  function Max(a: real, b: real): real { if a >= b then a else b }
  function Min(a: real, b: real): real { if a <= b then a else b }

  // ------------------------------------------------------------ delay arithmetic

  /**
   * `random.uniform(-range, range)`, given the random draw as a `sample` in
   * [-1, 1]: the result stays inside the interval and scales with `sample`.
   */
  function Uniform(range: real, sample: real): (r: real)
    requires range >= 0.0 && -1.0 <= sample <= 1.0
    ensures -range <= r <= range
    ensures (r < 0.0 ==> sample < 0.0) && (r > 0.0 ==> sample > 0.0)
  {
    MulNonNegative(range, 1.0 - sample);
    MulNonNegative(range, 1.0 + sample);
    range * sample
  }

  lemma MulNonNegative(a: real, b: real)
    requires a >= 0.0 && b >= 0.0
    ensures a * b >= 0.0
  {
  }

  /** The delay after a success: cut by ten percent, never below the floor. */
  function ReducedDelay(delay: real): (r: real)
    requires MinWaitTimeMs <= delay <= MaxWaitTimeMs
    ensures MinWaitTimeMs <= r <= delay
    ensures r < delay <==> delay > MinWaitTimeMs
  {
    Max(MinWaitTimeMs, delay * SuccessReductionFactor)
  }

  /** The delay after a failure: doubled, never above the ceiling. */
  function BackedOffDelay(delay: real): (r: real)
    requires MinWaitTimeMs <= delay <= MaxWaitTimeMs
    ensures delay <= r <= MaxWaitTimeMs
    ensures r > delay <==> delay < MaxWaitTimeMs
  {
    Min(MaxWaitTimeMs, delay * BackoffMultiplier)
  }

  // ------------------------------------------------------------ timestamps

  /** The timestamps strictly later than `cutoff`, in their order (the comprehension of `wait_for_throttle`). */
  function Prune(ts: seq<real>, cutoff: real): (kept: seq<real>)
    ensures |kept| <= |ts|
  {
    if ts == [] then []
    else
      var init, last := ts[..|ts| - 1], ts[|ts| - 1];
      Prune(init, cutoff) + (if last > cutoff then [last] else [])
  }

  /**
   * Pruning keeps exactly the timestamps after the cutoff, in their order:
   * every kept one is after it, and every one after it is kept.
   */
  lemma {:induction false} PruneSpec(ts: seq<real>, cutoff: real)
    ensures forall i :: 0 <= i < |Prune(ts, cutoff)| ==> Prune(ts, cutoff)[i] > cutoff
    ensures forall i :: 0 <= i < |ts| && ts[i] > cutoff ==> ts[i] in Prune(ts, cutoff)
    ensures IsSubsequence(Prune(ts, cutoff), ts)
  {
    if ts != [] {
      var init, last := ts[..|ts| - 1], ts[|ts| - 1];
      PruneSpec(init, cutoff);
      assert ts == init + [last];
      var p := Prune(init, cutoff);
      SubsequenceSnoc(p, init, last);
      if last <= cutoff {
        assert Prune(ts, cutoff) == p + [] == p;
      }
      forall i | 0 <= i < |ts| && ts[i] > cutoff
        ensures ts[i] in Prune(ts, cutoff)
      {
        if i < |init| {
          assert ts[i] == init[i];
        }
      }
    }
  }

  /** The smallest timestamp (`min(...)`). */
  function Oldest(ts: seq<real>): (m: real)
    requires ts != []
    ensures m in ts
    ensures forall i :: 0 <= i < |ts| ==> m <= ts[i]
  {
    if |ts| == 1 then ts[0] else Min(ts[0], Oldest(ts[1..]))
  }

  /**
   * The throttling wait in seconds for the timestamps kept after pruning: when
   * the window is full, until the oldest of them is a minute old.
   */
  function ThrottleWait(kept: seq<real>, now: real): real {
    if |kept| >= MaxRequestsPerMinute then Max(0.0, Oldest(kept) + WindowSeconds - now) else 0.0
  }

  /**
   * The wait is never negative. When every kept timestamp is inside the
   * window it is positive exactly when the window is full, and it lasts until
   * the oldest kept timestamp has left the window.
   */
  lemma ThrottleWaitSpec(kept: seq<real>, now: real)
    requires forall i :: 0 <= i < |kept| ==> kept[i] > now - WindowSeconds
    ensures ThrottleWait(kept, now) >= 0.0
    ensures ThrottleWait(kept, now) > 0.0 <==> |kept| >= MaxRequestsPerMinute
    ensures |kept| >= MaxRequestsPerMinute ==>
      Oldest(kept) <= now + ThrottleWait(kept, now) - WindowSeconds
  {
  }

  /** Number of timestamps in the window that ends at time `t`: (t - 60, t]. */
  function InWindow(ts: seq<real>, t: real): nat {
    if ts == [] then 0
    else
      var last := ts[|ts| - 1];
      InWindow(ts[..|ts| - 1], t) + (if t - WindowSeconds < last <= t then 1 else 0)
  }

  /** No window of one minute holds more than `MaxRequestsPerMinute` of the timestamps. */
  ghost predicate WindowBounded(ts: seq<real>) {
    forall t :: InWindow(ts, t) <= MaxRequestsPerMinute
  }

  /**
   * The limiter's window state: the log is in time order, the kept
   * timestamps are what the latest cutoff leaves of it, that cutoff is at
   * least a minute before the latest request, and no minute holds more
   * than `MaxRequestsPerMinute` requests.
   */
  ghost predicate Windowed(log: seq<real>, ts: seq<real>, horizon: real) {
    && Sorted(log)
    && ts == Prune(log, horizon)
    && (log != [] ==> horizon <= log[|log| - 1] - WindowSeconds)
    && WindowBounded(log)
  }

  ghost predicate Sorted(ts: seq<real>) {
    forall i, j :: 0 <= i < j < |ts| ==> ts[i] <= ts[j]
  }

  /** A later cutoff keeps no more timestamps. */
  lemma {:induction false} PruneMonotone(ts: seq<real>, c1: real, c2: real)
    requires c1 <= c2
    ensures |Prune(ts, c2)| <= |Prune(ts, c1)|
  {
    if ts != [] {
      PruneMonotone(ts[..|ts| - 1], c1, c2);
    }
  }

  /** Pruning twice is pruning once with the later cutoff. */
  lemma {:induction false} PruneTwice(ts: seq<real>, c1: real, c2: real)
    requires c1 <= c2
    ensures Prune(Prune(ts, c1), c2) == Prune(ts, c2)
  {
    if ts != [] {
      var init, last := ts[..|ts| - 1], ts[|ts| - 1];
      PruneTwice(init, c1, c2);
      var p := Prune(init, c1);
      if last > c1 {
        var q := p + [last];
        assert Prune(ts, c1) == q;
        assert q[..|q| - 1] == p && q[|q| - 1] == last;
      } else {
        assert Prune(ts, c1) == p + [] == p;
      }
    }
  }

  /** A cutoff at or after some timestamp drops at least that one. */
  lemma {:induction false} PruneDrops(ts: seq<real>, cutoff: real, x: real)
    requires x in ts && x <= cutoff
    ensures |Prune(ts, cutoff)| < |ts|
  {
    var init, last := ts[..|ts| - 1], ts[|ts| - 1];
    assert ts == init + [last];
    if last != x {
      assert x in init;
      PruneDrops(init, cutoff, x);
    }
  }

  /** For sorted timestamps none of which is after `t`, the window ending at `t` is what pruning keeps. */
  lemma {:induction false} WindowIsPrune(ts: seq<real>, t: real)
    requires Sorted(ts)
    requires forall i :: 0 <= i < |ts| ==> ts[i] <= t
    ensures InWindow(ts, t) == |Prune(ts, t - WindowSeconds)|
  {
    if ts != [] {
      WindowIsPrune(ts[..|ts| - 1], t);
    }
  }

  lemma WindowSnoc(ts: seq<real>, x: real, t: real)
    ensures InWindow(ts + [x], t) == InWindow(ts, t) + (if t - WindowSeconds < x <= t then 1 else 0)
  {
    assert (ts + [x])[..|ts + [x]| - 1] == ts;
  }

  // ------------------------------------------------------------ the limiter

  /**
   * The arithmetic of `wait_for_throttle`: the timestamps of the last
   * minute, and the wait until the oldest of them leaves the window when
   * the window is full.
   */
  method Throttle(timestamps: seq<real>, now: real) returns (kept: seq<real>, wait: real)
    ensures kept == Prune(timestamps, now - WindowSeconds)
    ensures wait == ThrottleWait(kept, now)
  {
    var cutoff := now - WindowSeconds;
    kept := Prune(timestamps, cutoff);
    wait := 0.0;
    if |kept| >= MaxRequestsPerMinute {
      var oldest := Oldest(kept);
      var waitUntil := oldest + WindowSeconds;
      wait := Max(0.0, waitUntil - now);
    }
  }

  class RateLimiter {
    var currentDelayMs: real
    var consecutiveFailures: nat
    var requestTimestamps: seq<real>
    /** every timestamp ever recorded, oldest first */
    ghost var requestLog: seq<real>
    /** the latest pruning cutoff: `requestTimestamps` is what it leaves of `requestLog` */
    ghost var horizon: real
    /** the calls of `RecordSuccess` (true) and `RecordFailure` (false), in order */
    ghost var outcomes: seq<bool>

    ghost predicate Valid()
      reads this
    {
      && MinWaitTimeMs <= currentDelayMs <= MaxWaitTimeMs
      && Windowed(requestLog, requestTimestamps, horizon)
    }

    constructor ()
      ensures Valid()
      ensures currentDelayMs == BaseWaitTimeMs && consecutiveFailures == 0
      ensures requestTimestamps == [] && requestLog == [] && outcomes == []
    {
      currentDelayMs := BaseWaitTimeMs;
      requestTimestamps := [];
      consecutiveFailures := 0;
      requestLog := [];
      horizon := 0.0;
      outcomes := [];
    }

    /** Half-width of the interval the jitter is drawn from: a fixed share of the current delay. */
    function JitterRange(): (range: real)
      reads this`currentDelayMs
      requires MinWaitTimeMs <= currentDelayMs
      ensures 0.0 < range < currentDelayMs
    {
      currentDelayMs * WaitJitterPercent
    }

    /** `get_delay_ms` with the random jitter passed in. */
    function DelayWithJitter(jitter: real): (delay: real)
      reads this`currentDelayMs
      requires MinWaitTimeMs <= currentDelayMs <= MaxWaitTimeMs
      requires -JitterRange() <= jitter <= JitterRange()
      ensures MinWaitTimeMs <= delay <= MaxWaitTimeMs
      ensures currentDelayMs * (1.0 - WaitJitterPercent) <= delay <= currentDelayMs * (1.0 + WaitJitterPercent)
      ensures MinWaitTimeMs <= currentDelayMs + jitter <= MaxWaitTimeMs ==> delay == currentDelayMs + jitter
    {
      Max(MinWaitTimeMs, Min(currentDelayMs + jitter, MaxWaitTimeMs))
    }

    method RecordSuccess()
      requires Valid()
      modifies this
      ensures Valid()
      ensures currentDelayMs == ReducedDelay(old(currentDelayMs))
      ensures consecutiveFailures == 0
      ensures outcomes == old(outcomes) + [true]
      ensures requestTimestamps == old(requestTimestamps) && requestLog == old(requestLog)
    {
      currentDelayMs := Max(MinWaitTimeMs, currentDelayMs * SuccessReductionFactor);
      consecutiveFailures := 0;
      outcomes := outcomes + [true];
    }

    method RecordFailure()
      requires Valid()
      modifies this
      ensures Valid()
      ensures currentDelayMs == BackedOffDelay(old(currentDelayMs))
      ensures consecutiveFailures == old(consecutiveFailures) + 1
      ensures outcomes == old(outcomes) + [false]
      ensures requestTimestamps == old(requestTimestamps) && requestLog == old(requestLog)
    {
      currentDelayMs := Min(MaxWaitTimeMs, currentDelayMs * BackoffMultiplier);
      consecutiveFailures := consecutiveFailures + 1;
      outcomes := outcomes + [false];
    }

    predicate ShouldPauseExtended()
      reads this
    {
      consecutiveFailures >= MaxConsecutiveFailures
    }

    /**
     * `wait_for_throttle` at clock time `now`. The time read after the sleep
     * is `now + wait + overrun`: the sleep may last longer than asked, never
     * shorter, and the clock does not run backwards.
     */
    method WaitForThrottle(now: real, overrun: real) returns (wait: real)
      requires Valid()
      requires requestLog != [] ==> now >= requestLog[|requestLog| - 1]
      requires overrun >= 0.0
      modifies this
      ensures Valid()
      ensures wait == ThrottleWait(Prune(old(requestTimestamps), now - WindowSeconds), now)
      ensures requestTimestamps == Prune(old(requestTimestamps), now - WindowSeconds) + [now + wait + overrun]
      ensures requestLog == old(requestLog) + [now + wait + overrun]
      ensures currentDelayMs == old(currentDelayMs) && consecutiveFailures == old(consecutiveFailures)
      ensures outcomes == old(outcomes)
    {
      var cutoff := now - WindowSeconds;
      var kept;
      kept, wait := Throttle(requestTimestamps, now);
      var stamp := now + wait + overrun;
      KeepsWindowBound(requestLog, requestTimestamps, horizon, now, stamp);
      requestTimestamps := kept + [stamp];
      requestLog := requestLog + [stamp];
      horizon := cutoff;
    }

    /**
     * `wait`: throttle, then the adaptive delay with jitter drawn from
     * `sample`. Returns the throttling wait in seconds and the delay in
     * milliseconds; the delay lies between the floor and the ceiling and
     * within the jitter share of the current delay.
     */
    method Wait(now: real, sample: real, overrun: real) returns (throttled: real, delayMs: real)
      requires Valid()
      requires requestLog != [] ==> now >= requestLog[|requestLog| - 1]
      requires -1.0 <= sample <= 1.0 && overrun >= 0.0
      modifies this
      ensures Valid()
      ensures throttled == ThrottleWait(Prune(old(requestTimestamps), now - WindowSeconds), now)
      ensures requestLog == old(requestLog) + [now + throttled + overrun]
      ensures requestTimestamps == Prune(old(requestTimestamps), now - WindowSeconds) + [now + throttled + overrun]
      ensures delayMs == DelayWithJitter(Uniform(JitterRange(), sample))
      ensures MinWaitTimeMs <= delayMs <= MaxWaitTimeMs
      ensures currentDelayMs == old(currentDelayMs) && consecutiveFailures == old(consecutiveFailures)
      ensures outcomes == old(outcomes)
    {
      throttled := WaitForThrottle(now, overrun);
      var jitter := Uniform(JitterRange(), sample);
      delayMs := DelayWithJitter(jitter);
    }

    /**
     * The driver's extended pause after too many failures in a row: the
     * failure count and the delay go back to their starting values.
     */
    method ResetAfterPause()
      requires Valid() && ShouldPauseExtended()
      modifies this
      ensures Valid()
      ensures consecutiveFailures == 0 && currentDelayMs == BaseWaitTimeMs
      ensures requestTimestamps == old(requestTimestamps) && requestLog == old(requestLog)
      ensures outcomes == old(outcomes)
    {
      consecutiveFailures := 0;
      currentDelayMs := BaseWaitTimeMs;
    }
  }

  /**
   * One throttled request keeps every one-minute window at no more than
   * `MaxRequestsPerMinute` requests, and keeps the pruned list in step with the log.
   */
  lemma KeepsWindowBound(log: seq<real>, ts: seq<real>, horizon: real, now: real, stamp: real)
    requires Windowed(log, ts, horizon)
    requires log != [] ==> now >= log[|log| - 1]
    requires stamp >= now + ThrottleWait(Prune(ts, now - WindowSeconds), now)
    ensures Windowed(log + [stamp], Prune(ts, now - WindowSeconds) + [stamp], now - WindowSeconds)
  {
    var kept := Prune(ts, now - WindowSeconds);
    var cutoff := now - WindowSeconds;
    assert kept == Prune(log, cutoff) by {
      if log != [] {
        PruneTwice(log, horizon, cutoff);
      }
    }
    PruneSpec(log, cutoff);
    ThrottleWaitSpec(kept, now);
    assert stamp >= now;
    var all := log + [stamp];
    SortedSnoc(log, now, stamp);
    assert |kept| <= MaxRequestsPerMinute by {
      SortedBelow(log, now);
      WindowIsPrune(log, now);
    }
    forall t
      ensures InWindow(all, t) <= MaxRequestsPerMinute
    {
      WindowAfterStamp(log, now, kept, stamp, t);
    }
    assert all[|all| - 1] == stamp;
  }

  /** The window ending at any `t` holds at most `MaxRequestsPerMinute` requests once `stamp` is added. */
  lemma WindowAfterStamp(log: seq<real>, now: real, kept: seq<real>, stamp: real, t: real)
    requires Sorted(log)
    requires log != [] ==> now >= log[|log| - 1]
    requires InWindow(log, t) <= MaxRequestsPerMinute
    requires kept == Prune(log, now - WindowSeconds)
    requires |kept| <= MaxRequestsPerMinute
    requires stamp >= now + ThrottleWait(kept, now) && stamp >= now
    ensures InWindow(log + [stamp], t) <= MaxRequestsPerMinute
  {
    WindowSnoc(log, stamp, t);
    if t - WindowSeconds < stamp <= t {
      WindowBeforeStamp(log, now, kept, stamp, t);
    }
  }

  /** When the new stamp falls in the window ending at `t`, that window held room for it. */
  lemma WindowBeforeStamp(log: seq<real>, now: real, kept: seq<real>, stamp: real, t: real)
    requires Sorted(log)
    requires log != [] ==> now >= log[|log| - 1]
    requires kept == Prune(log, now - WindowSeconds)
    requires |kept| <= MaxRequestsPerMinute
    requires stamp >= now + ThrottleWait(kept, now) && stamp >= now && stamp <= t
    ensures InWindow(log, t) < MaxRequestsPerMinute
  {
    var cutoff := t - WindowSeconds;
    assert now - WindowSeconds <= cutoff;
    SortedBelow(log, t);
    WindowIsPrune(log, t);
    assert InWindow(log, t) == |Prune(log, cutoff)|;
    PruneTwice(log, now - WindowSeconds, cutoff);
    assert Prune(kept, cutoff) == Prune(log, cutoff);
    if |kept| >= MaxRequestsPerMinute {
      FullWindowDrops(kept, now, stamp, t);
    }
  }

  /** Once the throttling wait is over, the oldest kept timestamp has left the window. */
  lemma FullWindowDrops(kept: seq<real>, now: real, stamp: real, t: real)
    requires |kept| >= MaxRequestsPerMinute
    requires stamp >= now + ThrottleWait(kept, now) && stamp <= t
    ensures |Prune(kept, t - WindowSeconds)| < |kept|
  {
    PruneDrops(kept, t - WindowSeconds, Oldest(kept));
  }

  /** Every timestamp of a sorted log is at or before any time after its last one. */
  lemma SortedBelow(log: seq<real>, t: real)
    requires Sorted(log)
    requires log != [] ==> t >= log[|log| - 1]
    ensures forall i :: 0 <= i < |log| ==> log[i] <= t
  {
  }

  lemma SortedSnoc(log: seq<real>, now: real, stamp: real)
    requires Sorted(log)
    requires log != [] ==> now >= log[|log| - 1]
    requires stamp >= now
    ensures Sorted(log + [stamp])
  {
    SortedBelow(log, now);
  }
}
