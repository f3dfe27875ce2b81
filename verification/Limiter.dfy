/** The Go side of the limiter: the call that runs the script, and the middleware around it. */
module Limiter {
  import opened Wrappers
  import opened Rounding
  import opened TokenBucket
  import opened BucketRuns
  import opened BucketStore
  import opened RetryPromise

  /** What Allow decodes from the script's reply; `retryAfter` is a duration in nanoseconds. */
  datatype Verdict = Verdict(allowed: bool, remaining: int, retryAfter: int)

  datatype ScriptError = ScriptError

  /** What the middleware does with a request. `headers` are the limit and the remaining count. */
  datatype Handling =
    | PassedOn(headers: Option<(int, int)>)
    | TooManyRequests(limit: int, remaining: int, retryAfter: int)

  /** The timestamp printed for the script, from a Unix time in nanoseconds. */
  function PrintedTime(unixNano: int): real {
    RoundHalfEven(unixNano as real / 1000.0) as real / 1000000.0
  }

  /** The printed timestamp is the Unix time in seconds, to the nearest microsecond. */
  lemma PrintedTimeIsClose(unixNano: int)
    ensures -0.0000005 <= PrintedTime(unixNano) - unixNano as real / 1000000000.0 <= 0.0000005
    ensures (PrintedTime(unixNano) * 1000000.0).Floor as real == PrintedTime(unixNano) * 1000000.0
  {
  }

  /** Printing to microseconds keeps a nondecreasing clock nondecreasing. */
  lemma PrintedTimeIsMonotone(earlier: int, later: int)
    requires earlier <= later
    ensures PrintedTime(earlier) <= PrintedTime(later)
  {
    RoundingIsMonotone(earlier as real / 1000.0, later as real / 1000.0);
  }

  class Limiter {
    const redis: Redis

    constructor (redis: Redis)
      ensures this.redis == redis
    {
      this.redis := redis;
    }

    /** `clock` is the server's time when the script runs, `outcome` how the call ended. */
    method Allow(key: string, ratePerMin: int, burst: nat, unixNano: int, clock: real, outcome: Outcome)
      returns (r: Result<Verdict, ScriptError>)
      modifies redis
      ensures var (after, reply) := Script(old(redis.keys), PrintedLimit(ratePerMin, burst),
                                           Request(key, PrintedTime(unixNano), clock));
              && redis.keys == (if outcome.Applied() then after else old(redis.keys))
              && r == (if outcome.Failed() || reply.None? then Err(ScriptError)
                       else Ok(Verdict(reply.value.allowed, reply.value.remaining,
                                       RoundHalfEven(reply.value.wait * 1000.0) * 1_000_000)))
    {
      if outcome.Refused? {
        return Err(ScriptError);
      }
      var limit := Limit(PrintedRate(ratePerMin), burst);
      var ok, allowed, remaining, thousandths :=
        redis.RateLimit(limit, Request(key, PrintedTime(unixNano), clock));
      if outcome.Unacknowledged? || !ok {
        return Err(ScriptError);
      }
      r := Ok(Verdict(allowed == 1, remaining, thousandths * 1_000_000));
    }

    /** Seconds for the Retry-After header: the least positive number of whole seconds that covers the
        duration. */
    method WriteLimited(retryAfter: int) returns (secs: int)
      ensures secs >= 1 && secs * 1_000_000_000 >= retryAfter
      ensures secs > 1 ==> (secs - 1) * 1_000_000_000 < retryAfter
    {
      secs := Ceil(retryAfter as real / 1000000000.0);
      if secs < 1 {
        secs := 1;
      }
    }

    /** The handler of both middlewares, which differ only in the key. An error lets the request through
        without headers. */
    method Serve(key: string, ratePerMin: int, burst: nat, unixNano: int, clock: real, outcome: Outcome)
      returns (h: Handling)
      modifies redis
      ensures var (after, reply) := Script(old(redis.keys), PrintedLimit(ratePerMin, burst),
                                           Request(key, PrintedTime(unixNano), clock));
              && redis.keys == (if outcome.Applied() then after else old(redis.keys))
              && h == (if outcome.Failed() || reply.None? then PassedOn(None)
                       else if reply.value.allowed then PassedOn(Some((burst, reply.value.remaining)))
                       else TooManyRequests(burst, reply.value.remaining, RetryAfterSeconds(reply.value.wait)))
    {
      ghost var reply := Script(redis.keys, PrintedLimit(ratePerMin, burst),
                                Request(key, PrintedTime(unixNano), clock)).1;
      var r := Allow(key, ratePerMin, burst, unixNano, clock, outcome);
      if r.Err? {
        return PassedOn(None);
      }
      var verdict := r.value;
      if !verdict.allowed {
        var secs := WriteLimited(verdict.retryAfter);
        AdvertisedSeconds(secs, reply.value.wait);
        return TooManyRequests(burst, verdict.remaining, secs);
      }
      h := PassedOn(Some((burst, verdict.remaining)));
    }
  }

  /** The script fails exactly for a configured rate of zero, whatever the keyspace and the burst; and the
      middleware then lets every request through. */
  lemma ZeroRateIsUnlimited(keys: Keyspace, ratePerMin: int, burst: nat, r: Request)
    ensures Script(keys, PrintedLimit(ratePerMin, burst), r).1.None? <==> ratePerMin == 0
  {
    PrintedRateIsClose(ratePerMin);
  }

  /** Rounding up the nanosecond duration is rounding up the printed thousandths. */
  lemma AdvertisedSeconds(secs: int, wait: real)
    requires var nanos := RoundHalfEven(wait * 1000.0) * 1_000_000;
             secs >= 1 && secs * 1_000_000_000 >= nanos && (secs > 1 ==> (secs - 1) * 1_000_000_000 < nanos)
    ensures secs == RetryAfterSeconds(wait)
  {
    LeastCover(secs, RoundHalfEven(wait * 1000.0));
  }

  lemma LeastCover(secs: int, thousandths: int)
    requires secs >= 1 && secs * 1000 >= thousandths && (secs > 1 ==> (secs - 1) * 1000 < thousandths)
    ensures var up := Ceil(thousandths as real / 1000.0); secs == if up < 1 then 1 else up
  {
  }

  /** End to end: over every interleaving of requests to any keys of the expiring store, each key with its
      own limit, the requests on one key admitted in any 60 seconds of its nondecreasing timestamps are at
      most the configured burst and rate. */
  lemma StoreAdmitsAtMost(limits: string -> Limit, reqs: seq<Request>, decisions: seq<bool>, key: string,
                          ratePerMin: nat, burst: nat, i: nat, j: nat)
    requires ValidLimits(limits) && |decisions| == |reqs| && ClocksAgree(reqs)
    requires forall k :: 0 <= k < |reqs| ==> decisions[k] == StoreReply(limits, reqs, k).allowed
    ensures var times, admitted := TimesOf(reqs, key, |reqs|), DecisionsOn(reqs, decisions, key, |reqs|);
            && |admitted| == |times|
            && (ratePerMin >= 1 && limits(key) == PrintedLimit(ratePerMin, burst) && Nondecreasing(times)
                && i <= j < |times| && times[j] - times[i] <= 60.0 ==>
                  Count(admitted, i, j + 1) <= burst + ratePerMin)
  {
    var times := TimesOf(reqs, key, |reqs|);
    StoreDecidesAsBucket(limits, reqs, decisions, key, |reqs|);
    if ratePerMin >= 1 && limits(key) == PrintedLimit(ratePerMin, burst) && Nondecreasing(times)
       && i <= j < |times| && times[j] - times[i] <= 60.0 {
      PerMinuteBound(ratePerMin, burst, times, i, j);
    }
  }
}
