/** The limiter over whole runs, in the terms of its configuration and of the callers' own clock. */
module LimiterRuns {
  import opened Wrappers
  import opened Rounding
  import opened TokenBucket
  import opened BucketRuns
  import opened BucketStore
  import opened RetryPromise
  import opened Limiter

  /** A request that reaches the middleware: its key, the Unix time of the caller in nanoseconds, and the
      server's time when the script runs. */
  datatype Arrival = Arrival(key: string, unixNano: int, clock: real)

  /** Requests per minute and burst. */
  datatype Config = Config(ratePerMin: int, burst: nat)

  function Limits(config: string -> Config): string -> Limit {
    key => PrintedLimit(config(key).ratePerMin, config(key).burst)
  }

  /** What the middleware passes to the script. */
  function Requests(arrivals: seq<Arrival>): (reqs: seq<Request>)
    ensures |reqs| == |arrivals|
    ensures forall i :: 0 <= i < |reqs| ==>
              reqs[i] == Request(arrivals[i].key, PrintedTime(arrivals[i].unixNano), arrivals[i].clock)
  {
    seq(|arrivals|, i requires 0 <= i < |arrivals| =>
      Request(arrivals[i].key, PrintedTime(arrivals[i].unixNano), arrivals[i].clock))
  }

  /** The callers' times of the requests on `key` among the first n. */
  function NanosOf(arrivals: seq<Arrival>, key: string, n: nat): seq<int>
    requires n <= |arrivals|
  {
    if n == 0 then []
    else if arrivals[n - 1].key == key then NanosOf(arrivals, key, n - 1) + [arrivals[n - 1].unixNano]
    else NanosOf(arrivals, key, n - 1)
  }

  lemma {:induction false} TimesArePrinted(arrivals: seq<Arrival>, key: string, n: nat)
    requires n <= |arrivals|
    ensures var times, nanos := TimesOf(Requests(arrivals), key, n), NanosOf(arrivals, key, n);
            |times| == |nanos| && forall i :: 0 <= i < |times| ==> times[i] == PrintedTime(nanos[i])
  {
    if n > 0 {
      TimesArePrinted(arrivals, key, n - 1);
    }
  }

  /** A run of the limiter on working stores: every configured rate is positive, the clocks agree, and
      `decisions` are the script's. */
  ghost predicate IsRun(config: string -> Config, arrivals: seq<Arrival>, decisions: seq<bool>) {
    && (forall key :: config(key).ratePerMin >= 1)
    && ValidLimits(Limits(config)) && ClocksAgree(Requests(arrivals)) && |decisions| == |arrivals|
    && forall k :: 0 <= k < |arrivals| ==> decisions[k] == StoreReply(Limits(config), Requests(arrivals), k).allowed
  }

  lemma ConfigIsValid(config: string -> Config)
    requires forall key :: config(key).ratePerMin >= 1
    ensures ValidLimits(Limits(config))
  {
    forall key ensures Limits(config)(key).rate > 0.0 {
      PrintedRateIsClose(config(key).ratePerMin);
    }
  }

  /** The decisions on one key, in its order. */
  function Admitted(arrivals: seq<Arrival>, decisions: seq<bool>, key: string): seq<bool>
    requires |decisions| == |arrivals|
  {
    DecisionsOn(Requests(arrivals), decisions, key, |arrivals|)
  }

  lemma AdmittedByBucket(config: string -> Config, arrivals: seq<Arrival>, decisions: seq<bool>, key: string)
    requires IsRun(config, arrivals, decisions)
    ensures Admitted(arrivals, decisions, key)
            == Decisions(Limits(config)(key), TimesOf(Requests(arrivals), key, |arrivals|))
    ensures |Admitted(arrivals, decisions, key)| == |NanosOf(arrivals, key, |arrivals|)|
  {
    StoreDecidesAsBucket(Limits(config), Requests(arrivals), decisions, key, |arrivals|);
    TimesArePrinted(arrivals, key, |arrivals|);
  }

  predicate NondecreasingNanos(nanos: seq<int>) {
    forall i, j :: 0 <= i <= j < |nanos| ==> nanos[i] <= nanos[j]
  }

  lemma PrintedTimesAreNondecreasing(times: seq<real>, nanos: seq<int>)
    requires |times| == |nanos| && NondecreasingNanos(nanos)
    requires forall i :: 0 <= i < |times| ==> times[i] == PrintedTime(nanos[i])
    ensures Nondecreasing(times)
  {
    forall i, j | 0 <= i <= j < |times| ensures times[i] <= times[j] {
      PrintedTimeIsMonotone(nanos[i], nanos[j]);
    }
  }

  /** The promise of the configuration, in the callers' nanoseconds, all roundings included: over every
      interleaving of keys, the requests on one key that are admitted within a minute of its nondecreasing
      clock are at most burst + ratePerMin, for every rate up to 59 million, where the microseconds of the
      printed timestamps begin to count. */
  lemma AdmitsAtMost(config: string -> Config, arrivals: seq<Arrival>, decisions: seq<bool>, key: string,
                     i: nat, j: nat)
    requires IsRun(config, arrivals, decisions) && config(key).ratePerMin <= 59_000_000
    requires NondecreasingNanos(NanosOf(arrivals, key, |arrivals|)) && i <= j < |NanosOf(arrivals, key, |arrivals|)|
    requires var nanos := NanosOf(arrivals, key, |arrivals|); nanos[j] - nanos[i] <= 60_000_000_000
    ensures |Admitted(arrivals, decisions, key)| > j
    ensures Count(Admitted(arrivals, decisions, key), i, j + 1) <= config(key).burst + config(key).ratePerMin
  {
    var times, nanos := TimesOf(Requests(arrivals), key, |arrivals|), NanosOf(arrivals, key, |arrivals|);
    AdmittedByBucket(config, arrivals, decisions, key);
    TimesArePrinted(arrivals, key, |arrivals|);
    PrintedTimesAreNondecreasing(times, nanos);
    PrintedTimeIsClose(nanos[i]);
    PrintedTimeIsClose(nanos[j]);
    RefillOfMinute(config(key).ratePerMin, config(key).burst, 60.000001);
    CountOverMinute(Limits(config)(key), config(key).ratePerMin, times, i, j, 60.000001);
  }

  /** ... and what it promises to admit: the first `burst` requests on a key, on every clock. */
  lemma AdmitsFirst(config: string -> Config, arrivals: seq<Arrival>, decisions: seq<bool>, key: string, n: nat)
    requires IsRun(config, arrivals, decisions)
    requires n < config(key).burst && n < |NanosOf(arrivals, key, |arrivals|)|
    ensures |Admitted(arrivals, decisions, key)| > n && Admitted(arrivals, decisions, key)[n]
  {
    var limit, times := Limits(config)(key), TimesOf(Requests(arrivals), key, |arrivals|);
    AdmittedByBucket(config, arrivals, decisions, key);
    FirstBurstIsAdmitted(limit, times, n);
    DecisionAt(limit, times, n);
  }

  /** ... and every request that comes a token's time after the one before it. */
  lemma AdmitsSpaced(config: string -> Config, arrivals: seq<Arrival>, decisions: seq<bool>, key: string, n: nat)
    requires IsRun(config, arrivals, decisions) && config(key).burst >= 1
    requires n + 1 < |NanosOf(arrivals, key, |arrivals|)|
    requires var nanos := NanosOf(arrivals, key, |arrivals|);
             SpacedFor(nanos[n + 1] - nanos[n], config(key).ratePerMin)
    ensures |Admitted(arrivals, decisions, key)| > n + 1 && Admitted(arrivals, decisions, key)[n + 1]
  {
    var limit, times := Limits(config)(key), TimesOf(Requests(arrivals), key, |arrivals|);
    var nanos := NanosOf(arrivals, key, |arrivals|);
    AdmittedByBucket(config, arrivals, decisions, key);
    TimesArePrinted(arrivals, key, |arrivals|);
    SpacedIsEnough(nanos[n], nanos[n + 1], config(key));
    SpacedIsAdmitted(limit, times, n);
    DecisionAt(limit, times, n + 1);
  }

  /** A minute divided by the rate, and what the roundings may cost. */
  predicate SpacedFor(nanos: int, ratePerMin: int) {
    nanos > 1000 && (nanos as real / 1000000000.0 - 0.000001) * (ratePerMin as real - 0.00003) >= 60.0
  }

  lemma SpacedIsEnough(earlier: int, later: int, c: Config)
    requires c.ratePerMin >= 1 && SpacedFor(later - earlier, c.ratePerMin)
    ensures Refill(PrintedLimit(c.ratePerMin, c.burst), PrintedTime(earlier), PrintedTime(later)) >= 1.0
  {
    PrintedTimeIsClose(earlier);
    PrintedTimeIsClose(later);
    PrintedRateIsClose(c.ratePerMin);
    var least := (later - earlier) as real / 1000000000.0 - 0.000001;
    GrownProduct(least, PrintedTime(later) - PrintedTime(earlier),
                 c.ratePerMin as real - 0.00003, PrintedRate(c.ratePerMin));
  }

  lemma GrownProduct(a: real, b: real, x: real, rate: real)
    requires 0.0 < a <= b && 0.0 < x <= 60.0 * rate && a * x >= 60.0
    ensures b * rate >= 1.0
  {
    ScaleMonotone(x, a, b);
    ScaleMonotone(b, x, 60.0 * rate);
    assert b * (60.0 * rate) == 60.0 * (b * rate);
  }
}
