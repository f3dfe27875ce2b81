/** What a denied caller is told: the exact wait, its printed form, and the per-minute bound. */
module RetryPromise {
  import opened Wrappers
  import opened Rounding
  import opened TokenBucket
  import opened BucketRuns

  // ---- The exact wait ----

  /** The instant a denial at request n points to. */
  function Promise(limit: Limit, times: seq<real>, n: nat): real
    requires limit.rate > 0.0 && n < |times|
  {
    times[n] + ReplyAt(limit, times, n).wait
  }

  /** A bucket that fills up to one token exactly at `due`. */
  predicate DueAt(limit: Limit, b: Bucket, due: real) {
    b.tokens + limit.rate * (due - b.last) == 1.0
  }

  lemma ChargeIsDue(limit: Limit, tokens: real, now: real)
    requires limit.rate > 0.0 && tokens < 1.0
    ensures var (b, reply) := Charge(limit, tokens, now);
            && reply.wait > 0.0 && DueAt(limit, b, now + reply.wait)
            && (forall due :: DueAt(limit, b, due) ==> due == now + reply.wait)
  {
    var (b, reply) := Charge(limit, tokens, now);
    assert limit.rate * reply.wait == 1.0 - tokens;
    forall due | DueAt(limit, b, due)
      ensures due == now + reply.wait
    {
      assert limit.rate * (due - now - reply.wait) == limit.rate * (due - now) - limit.rate * reply.wait == 0.0;
    }
  }

  lemma DueNow(limit: Limit, b: Bucket, due: real, now: real)
    requires limit.rate > 0.0 && limit.burst >= 1 && DueAt(limit, b, due) && b.last <= now
    ensures Available(limit, Some(b), now) >= 1.0 <==> now >= due
    ensures now < due ==> DueAt(limit, Bucket(Available(limit, Some(b), now), now), due)
  {
    Crossing(b.tokens, limit.rate, now - b.last, due - now);
    assert Refill(limit, b.last, now) == limit.rate * (now - b.last);
  }

  lemma Crossing(tokens: real, rate: real, gap: real, rest: real)
    requires rate > 0.0 && tokens + rate * (gap + rest) == 1.0
    ensures tokens + rate * gap + rate * rest == 1.0
    ensures tokens + rate * gap >= 1.0 <==> rest <= 0.0
  {
    if rest > 0.0 {
      ScaleMonotone(rate, 0.0, rest);
    } else {
      ScaleMonotone(rate, rest, 0.0);
    }
  }

  /** After the denial of request n, and as long as every later request came before its promise, the
      bucket stays due at that promise. */
  lemma {:induction false} StaysDue(limit: Limit, times: seq<real>, n: nat, m: nat)
    requires limit.rate > 0.0 && limit.burst >= 1 && n < m <= |times| && Nondecreasing(times)
    requires !ReplyAt(limit, times, n).allowed
    requires forall k :: n < k < m ==> times[k] < Promise(limit, times, n)
    ensures !ReplyAt(limit, times, m - 1).allowed && Promise(limit, times, m - 1) == Promise(limit, times, n)
    ensures DueAt(limit, StateBefore(limit, times, m).value, Promise(limit, times, n))
    ensures StateBefore(limit, times, m).value.last == times[m - 1]
    decreases m
  {
    var due := Promise(limit, times, n);
    if m == n + 1 {
      ChargeIsDue(limit, AvailableAt(limit, times, n), times[n]);
    } else {
      StaysDue(limit, times, n, m - 1);
      DueNow(limit, StateBefore(limit, times, m - 1).value, due, times[m - 1]);
      ChargeIsDue(limit, AvailableAt(limit, times, m - 1), times[m - 1]);
    }
  }

  /** Retry promise, with a nondecreasing clock: every request before the promised instant is denied
      and promised the same instant; the first one at or after it is admitted. */
  lemma RetryPromiseHolds(limit: Limit, times: seq<real>, n: nat, m: nat)
    requires limit.rate > 0.0 && limit.burst >= 1 && n < m < |times| && Nondecreasing(times)
    requires !ReplyAt(limit, times, n).allowed
    requires forall k :: n < k < m ==> times[k] < Promise(limit, times, n)
    ensures ReplyAt(limit, times, m).allowed <==> times[m] >= Promise(limit, times, n)
    ensures times[m] < Promise(limit, times, n) ==> Promise(limit, times, m) == Promise(limit, times, n)
  {
    StaysDue(limit, times, n, m);
    DueNow(limit, StateBefore(limit, times, m).value, Promise(limit, times, n), times[m]);
    if times[m] < Promise(limit, times, n) {
      StaysDue(limit, times, n, m + 1);
    }
  }

  /** Without capacity the promise is never kept: every request is denied. */
  lemma NoCapacityNoPromise(limit: Limit, times: seq<real>, n: nat)
    requires limit.rate > 0.0 && limit.burst == 0 && n < |times|
    ensures !ReplyAt(limit, times, n).allowed && ReplyAt(limit, times, n).wait > 0.0
  {
    LevelInRange(limit, times, n);
    assert ReplyAt(limit, times, n) == Charge(limit, AvailableAt(limit, times, n), times[n]).1;
    ChargeIsDue(limit, AvailableAt(limit, times, n), times[n]);
  }

  // ---- The printed wait ----

  /** Whole seconds sent in Retry-After for an exact wait: printed with three decimals, then rounded
      up, and never below one. */
  function RetryAfterSeconds(wait: real): int {
    var secs := Ceil(RoundHalfEven(wait * 1000.0) as real / 1000.0);
    if secs < 1 then 1 else secs
  }

  lemma RetryAfterIsClose(wait: real)
    requires wait > 0.0
    ensures wait - 0.0005 <= RetryAfterSeconds(wait) as real <= wait + 1.0005
  {
  }

  /** A wait whose fraction is small enough to be rounded away by the three decimals. */
  predicate RoundsDown(wait: real) {
    wait > 1.0 && 0.0 < wait - wait.Floor as real <= 0.0005
  }

  /** The advertised seconds cover the exact wait unless the fraction is rounded away. */
  lemma RetryAfterCoversWait(wait: real)
    requires wait > 0.0
    ensures RetryAfterSeconds(wait) as real >= wait <==> !RoundsDown(wait)
  {
    var f := wait.Floor;
    var d := wait - f as real;
    if d == 0.0 || (d <= 0.0005 && f >= 1) {
      SmallFractionIsLost(wait);
    } else if f >= 1 {
      LargeFractionIsKept(wait);
    }
  }

  lemma SmallFractionIsLost(wait: real)
    requires wait > 0.0 && wait - wait.Floor as real <= 0.0005
    ensures RetryAfterSeconds(wait) == if wait.Floor < 1 then 1 else wait.Floor
  {
    // 1000 times the whole part is even, so even the tie at half a thousandth rounds back to it.
    TieRoundsToEven(1000 * wait.Floor, wait * 1000.0);
  }

  lemma LargeFractionIsKept(wait: real)
    requires wait - wait.Floor as real > 0.0005
    ensures RetryAfterSeconds(wait) >= wait.Floor + 1
  {
    var thousandths := RoundHalfEven(wait * 1000.0);
    assert thousandths >= 1000 * wait.Floor + 1;
    CeilExceeds(thousandths as real / 1000.0, wait.Floor);
  }

  lemma CeilExceeds(x: real, f: int)
    requires x > f as real
    ensures Ceil(x) >= f + 1
  {
  }

  lemma TieRoundsToEven(even: int, x: real)
    requires even % 2 == 0 && even as real <= x <= even as real + 0.5
    ensures RoundHalfEven(x) == even
  {
  }

  /** A caller that waits exactly the advertised seconds is admitted if and only if the three printed
      decimals did not round the wait down; at worst it is short of 0.0005 * rate tokens. */
  lemma AdvertisedWait(limit: Limit, times: seq<real>, n: nat)
    requires limit.rate > 0.0 && limit.burst >= 1 && n + 1 < |times| && Nondecreasing(times)
    requires !ReplyAt(limit, times, n).allowed
    requires times[n + 1] == times[n] + RetryAfterSeconds(ReplyAt(limit, times, n).wait) as real
    ensures ReplyAt(limit, times, n + 1).allowed <==> !RoundsDown(ReplyAt(limit, times, n).wait)
    ensures AvailableAt(limit, times, n + 1) >= 1.0 - 0.0005 * limit.rate
  {
    ChargeIsDue(limit, AvailableAt(limit, times, n), times[n]);
    var wait := ReplyAt(limit, times, n).wait;
    var b, secs := StateBefore(limit, times, n + 1).value, RetryAfterSeconds(wait) as real;
    RetryAfterCoversWait(wait);
    RetryPromiseHolds(limit, times, n, n + 1);
    RetryAfterIsClose(wait);
    assert DueAt(limit, b, times[n] + wait);
    ShortfallAfter(limit, b, wait, secs);
    assert AvailableAt(limit, times, n + 1) == Available(limit, Some(b), b.last + secs);
  }

  lemma ShortfallAfter(limit: Limit, b: Bucket, wait: real, secs: real)
    requires limit.rate > 0.0 && limit.burst >= 1 && DueAt(limit, b, b.last + wait)
    requires 0.0 <= secs && wait - 0.0005 <= secs
    ensures Available(limit, Some(b), b.last + secs) >= 1.0 - 0.0005 * limit.rate
  {
    assert b.tokens + limit.rate * wait == 1.0;
    ScaleMonotone(limit.rate, wait - 0.0005, secs);
    assert limit.rate * (wait - 0.0005) == limit.rate * wait - 0.0005 * limit.rate;
    assert Refill(limit, b.last, b.last + secs) == limit.rate * secs;
  }

  /** Thirty requests a minute, one token: a second request 0.9996 s after the first is told to wait
      one second, and is denied again when it does. */
  lemma AdvertisedWaitCanFallShort()
    ensures var limit, times := Limit(0.5, 1), [0.0, 0.9996, 1.9996];
            && !ReplyAt(limit, times, 1).allowed
            && times[2] == times[1] + RetryAfterSeconds(ReplyAt(limit, times, 1).wait) as real
            && !ReplyAt(limit, times, 2).allowed
  {
    var limit, times := Limit(0.5, 1), [0.0, 0.9996, 1.9996];
    assert StateBefore(limit, times, 1) == Some(Bucket(0.0, 0.0));
    assert AvailableAt(limit, times, 1) == 0.4998;
    assert ReplyAt(limit, times, 1).wait == 1.0004;
    TieRoundsToEven(1000, 1000.4);
    AdvertisedWait(limit, times, 1);
    assert (1.0004).Floor == 1;
  }

  // ---- Requests per minute ----

  /** Tokens per second the script receives for a configured rate: divided by 60 and printed with six
      decimals. */
  function PrintedRate(ratePerMin: int): real {
    RoundHalfEven(ratePerMin as real / 60.0 * 1000000.0) as real / 1000000.0
  }

  lemma PrintedRateIsClose(ratePerMin: int)
    ensures PrintedRate(ratePerMin) > 0.0 <==> ratePerMin > 0
    ensures PrintedRate(ratePerMin) < 0.0 <==> ratePerMin < 0
    ensures ratePerMin as real - 0.00003 <= 60.0 * PrintedRate(ratePerMin) <= ratePerMin as real + 0.00003
  {
  }

  /** The limit the script is run with for a configured rate and burst. */
  function PrintedLimit(ratePerMin: int, burst: nat): Limit {
    Limit(PrintedRate(ratePerMin), burst)
  }

  /** The configured bound survives both roundings: in any 60 seconds of a nondecreasing clock at most
      burst + ratePerMin requests are admitted. */
  lemma PerMinuteBound(ratePerMin: nat, burst: nat, times: seq<real>, i: nat, j: nat)
    requires ratePerMin >= 1 && Nondecreasing(times) && i <= j < |times| && times[j] - times[i] <= 60.0
    ensures PrintedLimit(ratePerMin, burst).rate > 0.0
    ensures Count(Decisions(PrintedLimit(ratePerMin, burst), times), i, j + 1) <= burst + ratePerMin
  {
    PrintedRateIsClose(ratePerMin);
    RefillOfMinute(ratePerMin, burst, 60.0);
    CountOverMinute(PrintedLimit(ratePerMin, burst), ratePerMin, times, i, j, 60.0);
  }

  lemma CountOverMinute(limit: Limit, ratePerMin: nat, times: seq<real>, i: nat, j: nat, minute: real)
    requires limit.rate > 0.0 && minute >= 0.0 && Refill(limit, 0.0, minute) < ratePerMin as real + 1.0
    requires Nondecreasing(times) && i <= j < |times| && times[j] - times[i] <= minute
    ensures Count(Decisions(limit, times), i, j + 1) <= limit.burst + ratePerMin
  {
    WindowBound(limit, times, i, j);
    RefillIsMonotone(limit, times[i], times[j], minute);
  }

  lemma RefillIsMonotone(limit: Limit, last: real, now: real, minute: real)
    requires limit.rate > 0.0 && minute >= 0.0 && now - last <= minute
    ensures Refill(limit, last, now) <= Refill(limit, 0.0, minute)
  {
    ScaleMonotone(limit.rate, Max(0.0, now - last), minute);
  }

  /** A minute's refill, measured with an error of a microsecond. */
  lemma RefillOfMinute(ratePerMin: nat, burst: nat, minute: real)
    requires 1 <= ratePerMin && 0.0 <= minute
    requires minute <= 60.0 || (minute <= 60.000001 && ratePerMin <= 59_000_000)
    ensures Refill(PrintedLimit(ratePerMin, burst), 0.0, minute) < ratePerMin as real + 1.0
  {
    PrintedRateIsClose(ratePerMin);
    RateTimesMinute(PrintedRate(ratePerMin), ratePerMin, minute);
    assert Refill(PrintedLimit(ratePerMin, burst), 0.0, minute) == PrintedRate(ratePerMin) * minute;
  }

  lemma RateTimesMinute(rate: real, ratePerMin: nat, minute: real)
    requires 0.0 < rate && 60.0 * rate <= ratePerMin as real + 0.00003
    requires minute <= 60.0 || (minute <= 60.000001 && ratePerMin <= 59_000_000)
    ensures rate * minute < ratePerMin as real + 1.0
  {
    if minute <= 60.0 {
      ScaleMonotone(rate, minute, 60.0);
    } else {
      ScaleMonotone(rate, minute, 60.000001);
      MicrosecondOfRate(rate * minute, rate, ratePerMin as real);
    }
  }

  lemma MicrosecondOfRate(refill: real, rate: real, perMinute: real)
    requires 60.0 * rate <= perMinute + 0.00003 && perMinute <= 59000000.0
    requires refill <= 60.000001 * rate
    ensures refill < perMinute + 1.0
  {
  }
}
