/** The keyspace the script runs on: one bucket per key, each key expiring by the server's clock. */
module BucketStore {
  import opened Wrappers
  import opened Rounding
  import opened TokenBucket
  import opened BucketRuns

  /** A stored bucket and the server's time at which it disappears, if any. */
  datatype Entry = Entry(bucket: Bucket, expiresAt: Option<real>)

  type Keyspace = map<string, Entry>

  /** `now` is the timestamp the caller passes to the script, `clock` the server's time of the call. */
  datatype Request = Request(key: string, now: real, clock: real)

  predicate IsLive(keys: Keyspace, key: string, clock: real) {
    key in keys && (keys[key].expiresAt.Some? ==> clock < keys[key].expiresAt.value)
  }

  function Lookup(keys: Keyspace, key: string, clock: real): Option<Bucket> {
    if IsLive(keys, key, clock) then Some(keys[key].bucket) else None
  }

  /** The script for a rate other than zero. A lifetime that is not positive, which takes a negative
      rate, deletes the key at once. */
  function Eval(keys: Keyspace, limit: Limit, r: Request): (Keyspace, Reply)
    requires limit.rate != 0.0
  {
    var (b, reply) := Step(limit, Lookup(keys, r.key, r.clock), r.now);
    var ttl := Ttl(limit);
    (if ttl <= 0 then keys - {r.key} else keys[r.key := Entry(b, Some(r.clock + ttl as real))], reply)
  }

  /** The script. With a rate of zero the lifetime is infinite, which the server refuses: the script
      fails after it has written the bucket, and the key keeps the deadline it had. */
  function Script(keys: Keyspace, limit: Limit, r: Request): (Keyspace, Option<Reply>) {
    if limit.rate == 0.0 then
      var b := Spent(Available(limit, Lookup(keys, r.key, r.clock), r.now), r.now);
      (keys[r.key := Entry(b, if IsLive(keys, r.key, r.clock) then keys[r.key].expiresAt else None)], None)
    else
      var (after, reply) := Eval(keys, limit, r);
      (after, Some(reply))
  }

  /** The script in its own terms, for every rate, clock and keyspace: the tokens found are the stored ones and
      those of the time that passed, at most the capacity, which is what a missing key stands for; one is taken
      if there is one; and the key disappears a second after the whole seconds in which it would fill up, or at
      once when a negative rate leaves nothing of that, or never when the rate is zero, where the script fails. */
  lemma ScriptEffect(keys: Keyspace, limit: Limit, r: Request)
    returns (live: bool, passed: real, sum: real, found: real, left: real, ttl: int)
    ensures live <==> r.key in keys && (keys[r.key].expiresAt == None || r.clock < keys[r.key].expiresAt.value)
    ensures passed == if live && keys[r.key].bucket.last < r.now then r.now - keys[r.key].bucket.last else 0.0
    ensures sum == if live then keys[r.key].bucket.tokens + passed * limit.rate else limit.burst as real
    ensures found == if sum < limit.burst as real then sum else limit.burst as real
    ensures left == if found >= 1.0 then found - 1.0 else found
    ensures Script(keys, limit, r).1
            == if limit.rate == 0.0 then None
               else Some(Reply(found >= 1.0, left.Floor, if found >= 1.0 then 0.0 else (1.0 - found) / limit.rate))
    ensures var after := Script(keys, limit, r).0;
            && (forall k :: k != r.key ==> (k in after <==> k in keys) && (k in keys ==> after[k] == keys[k]))
            && (limit.rate > 0.0 ==>
                  r.key in after && after[r.key] == Entry(Bucket(left, r.now), Some(r.clock + ttl as real)))
            && (limit.rate == 0.0 ==>
                  && r.key in after
                  && after[r.key] == Entry(Bucket(left, r.now), if live then keys[r.key].expiresAt else None))
            && (limit.rate < 0.0 ==>
                  && (r.key in after <==> (limit.burst as real) < -limit.rate)
                  && (r.key in after ==> after[r.key] == Entry(Bucket(left, r.now), Some(r.clock + 1.0))))
    ensures limit.rate > 0.0 ==> (ttl - 2) as real < limit.burst as real / limit.rate <= (ttl - 1) as real
  {
    var data := Lookup(keys, r.key, r.clock);
    live := data.Some?;
    passed := if live && data.value.last < r.now then r.now - data.value.last else 0.0;
    sum := if live then data.value.tokens + passed * limit.rate else limit.burst as real;
    found := if sum < limit.burst as real then sum else limit.burst as real;
    left := if found >= 1.0 then found - 1.0 else found;
    AvailableIs(limit, data, r.now);
    ttl := if limit.rate == 0.0 then 0 else Ttl(limit);
    ScriptIs(keys, limit, r, found, left);
    if limit.rate != 0.0 {
      LifetimeIs(limit);
    }
  }

  lemma ScriptIs(keys: Keyspace, limit: Limit, r: Request, found: real, left: real)
    requires found == Available(limit, Lookup(keys, r.key, r.clock), r.now)
    requires left == if found >= 1.0 then found - 1.0 else found
    ensures var (after, reply) := Script(keys, limit, r);
            if limit.rate == 0.0 then
              && reply == None
              && after == keys[r.key := Entry(Bucket(left, r.now),
                                              if IsLive(keys, r.key, r.clock) then keys[r.key].expiresAt else None)]
            else
              && reply == Some(Reply(found >= 1.0, left.Floor,
                                     if found >= 1.0 then 0.0 else (1.0 - found) / limit.rate))
              && after == if Ttl(limit) <= 0 then keys - {r.key}
                          else keys[r.key := Entry(Bucket(left, r.now), Some(r.clock + Ttl(limit) as real))]
  {
  }

  lemma AvailableIs(limit: Limit, b: Option<Bucket>, now: real)
    ensures var passed := if b.Some? && b.value.last < now then now - b.value.last else 0.0;
            var sum := if b.Some? then b.value.tokens + passed * limit.rate else limit.burst as real;
            Available(limit, b, now) == if sum < limit.burst as real then sum else limit.burst as real
  {
  }

  /** The lifetime is the least number of whole seconds in which an empty bucket fills up, and one more. */
  lemma LifetimeIs(limit: Limit)
    requires limit.rate != 0.0
    ensures var (ttl, burst) := (Ttl(limit), limit.burst as real);
            && (ttl - 2) as real < burst / limit.rate <= (ttl - 1) as real
            && (limit.rate < 0.0 ==> (ttl > 0 <==> burst < -limit.rate) && (ttl > 0 ==> ttl == 1))
  {
    if limit.rate < 0.0 {
      NegativeQuotient(limit.burst as real, limit.rate);
    }
  }

  lemma QuotientIs(a: real, b: real)
    requires b != 0.0
    ensures b * (a / b) == a
  {
  }

  lemma NegativeQuotient(a: real, b: real)
    requires a >= 0.0 && b < 0.0
    ensures a / b <= 0.0 && (a / b > -1.0 <==> a < -b)
  {
    var q := a / b;
    QuotientIs(a, b);
    if q > 0.0 {
      ScaleMonotone(-b, 0.0, q);
    }
    if q > -1.0 {
      ScaleMonotone(-b, -1.0, q);
    } else {
      ScaleMonotone(-b, q, -1.0);
    }
  }

  class Redis {
    var keys: Keyspace

    constructor ()
      ensures keys == map[]
    {
      keys := map[];
    }

    /** The script, for every rate. The last result is the printed wait in thousandths of a second; the
        results mean something only when the script did not fail. */
    method RateLimit(limit: Limit, r: Request) returns (ok: bool, allowed: int, remaining: int, thousandths: int)
      modifies this
      ensures var (after, reply) := Script(old(keys), limit, r);
              && keys == after && (ok <==> reply.Some?)
              && (ok ==>
                    && allowed == (if reply.value.allowed then 1 else 0)
                    && remaining == reply.value.remaining
                    && thousandths == RoundHalfEven(reply.value.wait * 1000.0))
    {
      var data := Lookup(keys, r.key, r.clock);
      var tokens, last := limit.burst as real, r.now;
      if data.Some? {
        tokens, last := data.value.tokens, data.value.last;
      }
      var elapsed := Max(0.0, r.now - last);
      tokens := Min(limit.burst as real, tokens + elapsed * limit.rate);
      assert tokens == Available(limit, data, r.now) by {
        assert data.None? ==> elapsed * limit.rate == 0.0;
      }
      last := r.now;

      allowed := 0;
      var retryAfter := 0.0;
      if tokens >= 1.0 {
        tokens := tokens - 1.0;
        allowed := 1;
      } else if limit.rate != 0.0 {
        // An infinite wait, at rate zero, is never returned.
        retryAfter := (1.0 - tokens) / limit.rate;
      }
      remaining := tokens.Floor;
      thousandths := RoundHalfEven(retryAfter * 1000.0);

      var deadline := if IsLive(keys, r.key, r.clock) then keys[r.key].expiresAt else None;
      keys := keys[r.key := Entry(Bucket(tokens, last), deadline)];
      if limit.rate == 0.0 {
        return false, allowed, remaining, thousandths;
      }
      var ttl := Ceil(limit.burst as real / limit.rate) + 1;
      if ttl <= 0 {
        keys := keys - {r.key};
      } else {
        keys := keys[r.key := Entry(Bucket(tokens, last), Some(r.clock + ttl as real))];
      }
      ok := true;
    }
  }

  // ---- Runs over many keys ----

  ghost predicate ValidLimits(limits: string -> Limit) {
    forall key :: limits(key).rate > 0.0
  }

  ghost function KeysBefore(limits: string -> Limit, reqs: seq<Request>, n: nat): Keyspace
    requires ValidLimits(limits) && n <= |reqs|
  {
    if n == 0 then map[]
    else Eval(KeysBefore(limits, reqs, n - 1), limits(reqs[n - 1].key), reqs[n - 1]).0
  }

  ghost function StoreReply(limits: string -> Limit, reqs: seq<Request>, n: nat): Reply
    requires ValidLimits(limits) && n < |reqs|
  {
    Eval(KeysBefore(limits, reqs, n), limits(reqs[n].key), reqs[n]).1
  }

  /** The script times of the requests on `key` among the first n requests. */
  function TimesOf(reqs: seq<Request>, key: string, n: nat): seq<real>
    requires n <= |reqs|
  {
    if n == 0 then []
    else if reqs[n - 1].key == key then TimesOf(reqs, key, n - 1) + [reqs[n - 1].now]
    else TimesOf(reqs, key, n - 1)
  }

  /** The latest request on `key` before request n. */
  function Previous(reqs: seq<Request>, key: string, n: nat): (i: Option<nat>)
    requires n <= |reqs|
    ensures i.Some? ==> i.value < n && reqs[i.value].key == key
    ensures forall k :: (if i.Some? then i.value + 1 else 0) <= k < n ==> reqs[k].key != key
  {
    if n == 0 then None
    else if reqs[n - 1].key == key then Some(n - 1)
    else Previous(reqs, key, n - 1)
  }

  /** Between request j and the previous use of its key the server's clock ran at most one second
      ahead of the caller's. */
  predicate ClockAgrees(reqs: seq<Request>, j: nat)
    requires j < |reqs|
  {
    match Previous(reqs, reqs[j].key, j)
    case None => true
    case Some(i) => reqs[j].clock - reqs[i].clock <= reqs[j].now - reqs[i].now + 1.0
  }

  /** Neither clock need be monotone. */
  predicate ClocksAgree(reqs: seq<Request>) {
    forall j :: 0 <= j < |reqs| ==> ClockAgrees(reqs, j)
  }

  /** Clocks that differ by at most half a second agree. */
  lemma CloseClocksAgree(reqs: seq<Request>)
    requires forall j :: 0 <= j < |reqs| ==> -0.5 <= reqs[j].clock - reqs[j].now <= 0.5
    ensures ClocksAgree(reqs)
  {
  }

  /** Each key holds the never-expiring bucket of its own requests, and a deadline. */
  ghost predicate KeyInvariant(limits: string -> Limit, reqs: seq<Request>, key: string, n: nat)
    requires ValidLimits(limits) && n <= |reqs|
  {
    var keys, times := KeysBefore(limits, reqs, n), TimesOf(reqs, key, n);
    match Previous(reqs, key, n)
    case None => key !in keys && times == []
    case Some(i) =>
      && key in keys && |times| > 0 && times[|times| - 1] == reqs[i].now
      && Some(keys[key].bucket) == StateBefore(limits(key), times, |times|)
      && keys[key].expiresAt == Some(reqs[i].clock + Ttl(limits(key)) as real)
  }

  lemma {:induction false} PrefixState(limit: Limit, times: seq<real>, more: seq<real>, n: nat)
    requires limit.rate > 0.0 && n <= |times|
    ensures StateBefore(limit, times + more, n) == StateBefore(limit, times, n)
  {
    if n > 0 {
      PrefixState(limit, times, more, n - 1);
    }
  }

  /** A bucket idle until its key may have disappeared is full, which is what a missing key means. */
  lemma ExpiredMeansFull(limit: Limit, times: seq<real>, n: nat, now: real)
    requires limit.rate > 0.0 && 0 < n <= |times|
    requires now - times[n - 1] >= Ttl(limit) as real - 1.0
    ensures Available(limit, StateBefore(limit, times, n), now) == limit.burst as real
  {
    LevelInRange(limit, times, n);
    FullBeforeExpiry(limit, StateBefore(limit, times, n).value, now);
  }

  /** Reading the expiring store and reading the never-expiring bucket lead to the same step. */
  lemma SameStep(limits: string -> Limit, reqs: seq<Request>, n: nat)
    requires ValidLimits(limits) && n < |reqs| && ClocksAgree(reqs)
    requires KeyInvariant(limits, reqs, reqs[n].key, n)
    ensures var r, limit := reqs[n], limits(reqs[n].key);
            var times := TimesOf(reqs, r.key, n);
            && TimesOf(reqs, r.key, n + 1) == times + [r.now]
            && Step(limit, Lookup(KeysBefore(limits, reqs, n), r.key, r.clock), r.now)
               == Step(limit, StateBefore(limit, times + [r.now], |times|), r.now)
  {
    var r, limit := reqs[n], limits(reqs[n].key);
    var times := TimesOf(reqs, r.key, n);
    PrefixState(limit, times, [r.now], |times|);
    assert ClockAgrees(reqs, n);
    var previous := Previous(reqs, r.key, n);
    if previous.Some? && !IsLive(KeysBefore(limits, reqs, n), r.key, r.clock) {
      ExpiredMeansFull(limit, times, |times|, r.now);
    }
  }

  lemma OwnRequestKeepsInvariant(limits: string -> Limit, reqs: seq<Request>, n: nat)
    requires ValidLimits(limits) && n < |reqs| && ClocksAgree(reqs)
    requires KeyInvariant(limits, reqs, reqs[n].key, n)
    ensures KeyInvariant(limits, reqs, reqs[n].key, n + 1)
  {
    TtlIsPositive(limits(reqs[n].key));
    SameStep(limits, reqs, n);
  }

  lemma OtherRequestKeepsInvariant(limits: string -> Limit, reqs: seq<Request>, key: string, n: nat)
    requires ValidLimits(limits) && n < |reqs| && key != reqs[n].key
    requires KeyInvariant(limits, reqs, key, n)
    ensures KeyInvariant(limits, reqs, key, n + 1)
  {
    TtlIsPositive(limits(reqs[n].key));
  }

  lemma {:induction false} EveryKeyInvariant(limits: string -> Limit, reqs: seq<Request>, key: string, n: nat)
    requires ValidLimits(limits) && n <= |reqs| && ClocksAgree(reqs)
    ensures KeyInvariant(limits, reqs, key, n)
  {
    if n > 0 {
      EveryKeyInvariant(limits, reqs, key, n - 1);
      if reqs[n - 1].key == key {
        OwnRequestKeepsInvariant(limits, reqs, n - 1);
      } else {
        OtherRequestKeepsInvariant(limits, reqs, key, n - 1);
      }
    }
  }

  /** Expiry is unobservable and keys do not interfere: on every interleaving of requests to any keys,
      each reply is the one a never-expiring bucket gives on the requests of that key alone. */
  lemma ExpiryIsUnobservable(limits: string -> Limit, reqs: seq<Request>, n: nat)
    requires ValidLimits(limits) && n < |reqs| && ClocksAgree(reqs)
    ensures var key := reqs[n].key;
            && |TimesOf(reqs, key, n)| < |TimesOf(reqs, key, n + 1)|
            && StoreReply(limits, reqs, n)
               == ReplyAt(limits(key), TimesOf(reqs, key, n + 1), |TimesOf(reqs, key, n)|)
  {
    EveryKeyInvariant(limits, reqs, reqs[n].key, n);
    SameStep(limits, reqs, n);
  }

  /** Of the decisions on a run, those on the first n requests that concern `key`. */
  function DecisionsOn(reqs: seq<Request>, decisions: seq<bool>, key: string, n: nat): seq<bool>
    requires n <= |reqs| == |decisions|
  {
    if n == 0 then []
    else if reqs[n - 1].key == key then DecisionsOn(reqs, decisions, key, n - 1) + [decisions[n - 1]]
    else DecisionsOn(reqs, decisions, key, n - 1)
  }

  /** So every theorem about the decisions of one bucket holds of each key of the expiring store. */
  lemma {:induction false} StoreDecidesAsBucket(limits: string -> Limit, reqs: seq<Request>, decisions: seq<bool>,
                                                key: string, n: nat)
    requires ValidLimits(limits) && n <= |reqs| == |decisions| && ClocksAgree(reqs)
    requires forall k :: 0 <= k < |reqs| ==> decisions[k] == StoreReply(limits, reqs, k).allowed
    ensures DecisionsOn(reqs, decisions, key, n) == Decisions(limits(key), TimesOf(reqs, key, n))
  {
    if n > 0 {
      StoreDecidesAsBucket(limits, reqs, decisions, key, n - 1);
      if reqs[n - 1].key == key {
        StoreDecidesNext(limits, reqs, n - 1, decisions[n - 1]);
      } else {
        assert TimesOf(reqs, key, n) == TimesOf(reqs, key, n - 1);
      }
    }
  }

  lemma StoreDecidesNext(limits: string -> Limit, reqs: seq<Request>, n: nat, decision: bool)
    requires ValidLimits(limits) && n < |reqs| && ClocksAgree(reqs)
    requires decision == StoreReply(limits, reqs, n).allowed
    ensures var key := reqs[n].key;
            Decisions(limits(key), TimesOf(reqs, key, n + 1))
            == Decisions(limits(key), TimesOf(reqs, key, n)) + [decision]
  {
    var key := reqs[n].key;
    ExpiryIsUnobservable(limits, reqs, n);
    assert TimesOf(reqs, key, n + 1) == TimesOf(reqs, key, n) + [reqs[n].now];
    DecisionsGrow(limits(key), TimesOf(reqs, key, n), reqs[n].now);
  }

  lemma DecisionsGrow(limit: Limit, times: seq<real>, now: real)
    requires limit.rate > 0.0
    ensures Decisions(limit, times + [now])
            == Decisions(limit, times) + [ReplyAt(limit, times + [now], |times|).allowed]
  {
    DecisionsOfPrefix(limit, times, now, |times|);
  }

  lemma {:induction false} DecisionsOfPrefix(limit: Limit, times: seq<real>, now: real, n: nat)
    requires limit.rate > 0.0 && n <= |times|
    ensures DecisionsUpTo(limit, times + [now], n) == DecisionsUpTo(limit, times, n)
  {
    if n > 0 {
      DecisionsOfPrefix(limit, times, now, n - 1);
      PrefixState(limit, times, [now], n - 1);
    }
  }
}
