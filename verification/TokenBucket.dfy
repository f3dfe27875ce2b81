/** One evaluation of the token bucket script: what it reads, what it decides and what it stores. */
module TokenBucket {
  import opened Wrappers
  import opened Rounding

  /** Tokens per second and bucket capacity. The theorems ask for a positive rate; a capacity of zero is
      allowed, as it is in the configuration. */
  datatype Limit = Limit(rate: real, burst: nat)

  /** The two hash fields stored per key. */
  datatype Bucket = Bucket(tokens: real, last: real)

  /** The answer to one request. `wait` is the exact number of seconds before it is printed. */
  datatype Reply = Reply(allowed: bool, remaining: int, wait: real)

  function Min(a: real, b: real): real { if a <= b then a else b }

  function Max(a: real, b: real): real { if a >= b then a else b }

  /** Tokens credited between two script times; none when the clock went back. */
  function Refill(limit: Limit, last: real, now: real): real {
    Max(0.0, now - last) * limit.rate
  }

  /** Tokens on hand at time `now`, after the refill and before the request is charged. A missing
      key stands for a full bucket. */
  function Available(limit: Limit, b: Option<Bucket>, now: real): real {
    match b
    case None => limit.burst as real
    case Some(b) => Min(limit.burst as real, b.tokens + Refill(limit, b.last, now))
  }

  /** The bucket written back. */
  function Spent(tokens: real, now: real): Bucket {
    Bucket(if tokens >= 1.0 then tokens - 1.0 else tokens, now)
  }

  /** The decision on the tokens on hand, and the bucket written back. */
  function Charge(limit: Limit, tokens: real, now: real): (Bucket, Reply)
    requires limit.rate != 0.0
  {
    (Spent(tokens, now),
     if tokens >= 1.0 then Reply(true, (tokens - 1.0).Floor, 0.0)
     else Reply(false, tokens.Floor, (1.0 - tokens) / limit.rate))
  }

  function Step(limit: Limit, b: Option<Bucket>, now: real): (Bucket, Reply)
    requires limit.rate != 0.0
  {
    Charge(limit, Available(limit, b, now), now)
  }

  /** Seconds after which an unused key disappears. */
  function Ttl(limit: Limit): int
    requires limit.rate != 0.0
  {
    Ceil(limit.burst as real / limit.rate) + 1
  }

  lemma TtlIsPositive(limit: Limit)
    requires limit.rate > 0.0
    ensures Ttl(limit) >= 1
  {
    assert limit.burst as real / limit.rate >= 0.0;
  }

  /** An unused bucket is full again a whole second before its key may disappear. */
  lemma FullBeforeExpiry(limit: Limit, b: Bucket, now: real)
    requires limit.rate > 0.0 && b.tokens >= 0.0 && now - b.last >= Ttl(limit) as real - 1.0
    ensures Available(limit, Some(b), now) == limit.burst as real
  {
    var need, waited := limit.burst as real / limit.rate, now - b.last;
    assert limit.rate * need == limit.burst as real;
    ScaleMonotone(limit.rate, need, waited);
    assert Max(0.0, waited) == waited by {
      assert need >= 0.0;
    }
    assert Refill(limit, b.last, now) == limit.rate * waited;
  }
}
