/** The time to live that healthd gives its status keys (control-plane/cmd/healthd/main.go), and
    whether it bridges the time between two writes. */
module Expiry {
  import opened Text
  import opened Vpn
  import Bus

  /** `ttlSeconds` as `loadConfig` sets it: a positive override, else three poll intervals in whole
      seconds but at least one. Computed on exact numbers; the source goes through `float64`, which
      differs only for intervals of months. */
  function TtlSeconds(interval: Duration, override: Option<int>): (r: int)
    requires interval > 0
    ensures override.Some? && override.value > 0 ==> r == override.value
    ensures override.None? || override.value <= 0 ==>
              r >= 1 && 3 * interval < (r + 1) * SECOND && (r > 1 ==> r * SECOND <= 3 * interval)
  {
    if override.Some? && override.value > 0 then override.value
    else if 3 * interval / SECOND < 1 then 1 else 3 * interval / SECOND
  }

  /** The default as it reaches Redis. A value that is not positive sets no expiry. */
  function DefaultTtl(interval: Duration): Duration
    requires interval > 0
  {
    Bus.Ttl(TtlSeconds(interval, None))
  }

  /** Three intervals in whole seconds overflow the 64-bit nanosecond count past zero. */
  predicate WrapsAround(interval: Duration) { 3 * interval / SECOND * SECOND > WORD }

  lemma DefaultTtlIs(interval: Duration) returns (half: int)
    requires interval > 0
    ensures var exact := TtlSeconds(interval, None) * SECOND;
            DefaultTtl(interval) == if exact <= MAX_DURATION then exact else exact - WORD
    ensures 3 * interval < 2 * WORD && DefaultTtl(interval) == 2 * half
  {
    var exact := TtlSeconds(interval, None) * SECOND;
    assert exact <= SECOND || exact <= 3 * interval;
    WrapOnce(exact);
    half := TtlSeconds(interval, None) * 500_000_000;
    if exact > MAX_DURATION { half := half - (MAX_DURATION + 1); }
  }

  lemma WrapOnce(n: int)
    requires 0 <= n <= WORD + MAX_DURATION
    ensures Wrap64(n) == if n <= MAX_DURATION then n else n - WORD
  {
    assert n % WORD == if n < WORD then n else n - WORD;
  }

  /** The default is at least two intervals, or sets no expiry, exactly outside two ranges of intervals. */
  lemma DefaultTtlBounds(interval: Duration)
    requires interval > 0
    ensures DefaultTtl(interval) <= SECOND || DefaultTtl(interval) <= 3 * interval
    ensures DefaultTtl(interval) <= 0 || DefaultTtl(interval) >= 2 * interval
       <==> (2 * interval <= SECOND || 3 * interval >= 2 * SECOND) && !WrapsAround(interval)
  {
    var _ := DefaultTtlIs(interval);
  }

  // ---------------------------------------------------------------- does a key lapse?

  /** Write `k` of consecutive ticks that each finish within their interval: tick `k` starts `k`
      intervals after the first, and its write lands before the next tick. */
  predicate OnTime(start: Instant, interval: Duration, writes: seq<Instant>) {
    forall k :: 0 <= k < |writes| ==> start + k * interval <= writes[k] <= start + k * interval + interval
  }

  /** A write at `w` is readable at `t`. */
  predicate Lives(w: Instant, ttl: Duration, t: Instant) { w <= t && (ttl > 0 ==> t <= w + ttl) }

  predicate Alive(writes: seq<Instant>, ttl: Duration, t: Instant) {
    exists k :: 0 <= k < |writes| && Lives(writes[k], ttl, t)
  }

  /** A key written on time is readable from the first write to the end of the last one's life. */
  ghost predicate NeverLapses(interval: Duration, ttl: Duration) {
    forall start: Instant, writes: seq<Instant>, t: Instant ::
      OnTime(start, interval, writes) && writes != [] && writes[0] <= t && (ttl > 0 ==> t <= Last(writes) + ttl)
      ==> Alive(writes, ttl, t)
  }

  lemma {:induction false} BridgedWhenLongEnough(
    start: Instant, interval: Duration, ttl: Duration, writes: seq<Instant>, t: Instant)
    requires interval > 0 && (ttl <= 0 || ttl >= 2 * interval)
    requires OnTime(start, interval, writes) && writes != [] && writes[0] <= t && (ttl > 0 ==> t <= Last(writes) + ttl)
    ensures Alive(writes, ttl, t)
  {
    var n := |writes| - 1;
    if ttl <= 0 {
      assert Lives(writes[0], ttl, t);
    } else if writes[n] > t {
      var earlier := Front(writes);
      assert writes[n] <= start + n * interval + interval;
      assert start + (n - 1) * interval <= writes[n - 1];
      assert (n - 1) * interval == n * interval - interval;
      assert Last(earlier) + ttl >= t;
      BridgedWhenLongEnough(start, interval, ttl, earlier, t);
      var k :| 0 <= k < |earlier| && Lives(earlier[k], ttl, t);
      assert writes[k] == earlier[k];
    } else {
      assert Lives(writes[n], ttl, t);
    }
  }

  lemma GapWhenTooShort(interval: Duration, ttl: Duration)
    requires 0 < ttl && ttl + 1 < 2 * interval
    ensures !NeverLapses(interval, ttl)
  {
    var writes := [0, 2 * interval];
    assert OnTime(0, interval, writes);
    assert !Alive(writes, ttl, ttl + 1);
    assert writes[0] <= ttl + 1 <= Last(writes) + ttl;
  }

  /** With the default time to live a status key lapses under no schedule of on-time ticks exactly when
      the interval is not strictly between half a second and two thirds of a second, and three of it do
      not overflow past zero. Otherwise a fast tick followed by a slow one leaves a gap. */
  lemma DefaultTtlBridgesExactly(interval: Duration)
    requires interval > 0
    ensures NeverLapses(interval, DefaultTtl(interval))
       <==> (2 * interval <= SECOND || 3 * interval >= 2 * SECOND) && !WrapsAround(interval)
  {
    var ttl := DefaultTtl(interval);
    DefaultTtlBounds(interval);
    var half := DefaultTtlIs(interval);
    if ttl <= 0 || ttl >= 2 * interval {
      forall start: Instant, writes: seq<Instant>, t: Instant
        | OnTime(start, interval, writes) && writes != [] && writes[0] <= t && (ttl > 0 ==> t <= Last(writes) + ttl)
        ensures Alive(writes, ttl, t)
      {
        BridgedWhenLongEnough(start, interval, ttl, writes, t);
      }
    } else {
      GapWhenTooShort(interval, ttl);
    }
  }

  /** One interval in each range: 0.6 seconds, and 9.2e18 nanoseconds, about 292 years. */
  lemma DefaultTtlCanLapse()
    ensures !NeverLapses(600_000_000, DefaultTtl(600_000_000))
    ensures !NeverLapses(9_200_000_000_000_000_000, DefaultTtl(9_200_000_000_000_000_000))
  {
    DefaultTtlBridgesExactly(600_000_000);
    DefaultTtlBridgesExactly(9_200_000_000_000_000_000);
  }
}
