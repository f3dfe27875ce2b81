/** Whole runs of one never-expiring bucket: a closed form for its level, the exact set of schedules
    the limit permits, and the optimality of the bucket among them.

    `Earned` is the refill credited so far, the rate times the sum of the forward clock movements, so
    that no theorem here needs the clock to be nondecreasing. */
module BucketRuns {
  import opened Wrappers
  import opened TokenBucket

  // ---- The bucket over a sequence of request times ----

  function StateBefore(limit: Limit, times: seq<real>, n: nat): Option<Bucket>
    requires limit.rate > 0.0 && n <= |times|
  {
    if n == 0 then None else Some(Step(limit, StateBefore(limit, times, n - 1), times[n - 1]).0)
  }

  function ReplyAt(limit: Limit, times: seq<real>, n: nat): Reply
    requires limit.rate > 0.0 && n < |times|
  {
    Step(limit, StateBefore(limit, times, n), times[n]).1
  }

  function AvailableAt(limit: Limit, times: seq<real>, n: nat): real
    requires limit.rate > 0.0 && n < |times|
  {
    Available(limit, StateBefore(limit, times, n), times[n])
  }

  /** Which of the first n requests the bucket admits. */
  function DecisionsUpTo(limit: Limit, times: seq<real>, n: nat): (p: seq<bool>)
    requires limit.rate > 0.0 && n <= |times|
    ensures |p| == n
  {
    if n == 0 then []
    else DecisionsUpTo(limit, times, n - 1) + [ReplyAt(limit, times, n - 1).allowed]
  }

  function Decisions(limit: Limit, times: seq<real>): seq<bool>
    requires limit.rate > 0.0
  {
    DecisionsUpTo(limit, times, |times|)
  }

  lemma {:induction false} DecisionUpTo(limit: Limit, times: seq<real>, n: nat, k: nat)
    requires limit.rate > 0.0 && k < n <= |times|
    ensures DecisionsUpTo(limit, times, n)[k] == ReplyAt(limit, times, k).allowed
    ensures ReplyAt(limit, times, k).allowed <==> AvailableAt(limit, times, k) >= 1.0
  {
    if k < n - 1 {
      DecisionUpTo(limit, times, n - 1, k);
    }
  }

  lemma DecisionAt(limit: Limit, times: seq<real>, k: nat)
    requires limit.rate > 0.0 && k < |times|
    ensures Decisions(limit, times)[k] == ReplyAt(limit, times, k).allowed
    ensures ReplyAt(limit, times, k).allowed <==> AvailableAt(limit, times, k) >= 1.0
  {
    DecisionUpTo(limit, times, |times|, k);
  }

  // ---- Schedules of any admission policy ----

  function Earned(limit: Limit, times: seq<real>, n: nat): real
    requires n < |times|
  {
    if n == 0 then 0.0
    else Earned(limit, times, n - 1) + Refill(limit, times[n - 1], times[n])
  }

  /** Number of admitted requests i, ..., j-1. */
  function Count(p: seq<bool>, i: nat, j: nat): nat
    requires i <= j <= |p|
  {
    if i == j then 0 else Count(p, i, j - 1) + if p[j - 1] then 1 else 0
  }

  /** Tokens a policy with schedule `p` would find at request n if it kept a bucket of its own. */
  function Level(limit: Limit, times: seq<real>, p: seq<bool>, n: nat): real
    requires |p| == |times| && n < |times|
  {
    if n == 0 then limit.burst as real
    else Min(limit.burst as real,
             Level(limit, times, p, n - 1) - (if p[n - 1] then 1.0 else 0.0)
             + (Earned(limit, times, n) - Earned(limit, times, n - 1)))
  }

  /** The policy charges a token for each admission and never overdraws its bucket. */
  predicate KeepsBucket(limit: Limit, times: seq<real>, p: seq<bool>)
    requires |p| == |times|
  {
    forall n :: 0 <= n < |times| && p[n] ==> Level(limit, times, p, n) >= 1.0
  }

  /** What every closed window [i, j] may admit: the capacity and the refill earned inside it. */
  function WindowAllowance(limit: Limit, times: seq<real>, i: nat, j: nat): real
    requires i <= j < |times|
  {
    limit.burst as real + Earned(limit, times, j) - Earned(limit, times, i)
  }

  predicate KeepsWindows(limit: Limit, times: seq<real>, p: seq<bool>)
    requires |p| == |times|
  {
    forall i, j :: 0 <= i <= j < |times| ==> Count(p, i, j + 1) as real <= WindowAllowance(limit, times, i, j)
  }

  /** Tokens left of window i's allowance when request n arrives. */
  function Bound(limit: Limit, times: seq<real>, p: seq<bool>, i: nat, n: nat): real
    requires |p| == |times| && i <= n < |times|
  {
    WindowAllowance(limit, times, i, n) - Count(p, i, n) as real
  }

  // ---- The closed form ----

  /** A bucket level is the least of the window bounds, for every policy and every clock. */
  lemma {:induction false} LevelIsLeastBound(limit: Limit, times: seq<real>, p: seq<bool>, n: nat) returns (i: nat)
    requires |p| == |times| && n < |times|
    ensures i <= n && Level(limit, times, p, n) == Bound(limit, times, p, i, n)
    ensures forall k :: 0 <= k <= n ==> Level(limit, times, p, n) <= Bound(limit, times, p, k, n)
  {
    if n == 0 {
      i := 0;
    } else {
      i := LevelIsLeastBound(limit, times, p, n - 1);
      if Level(limit, times, p, n) == limit.burst as real {
        i := n;
      }
      forall k | 0 <= k <= n
        ensures Level(limit, times, p, n) <= Bound(limit, times, p, k, n)
      {
        if k < n {
          assert Level(limit, times, p, n - 1) <= Bound(limit, times, p, k, n - 1);
        }
      }
    }
  }

  lemma StateAfter(limit: Limit, times: seq<real>, n: nat)
    requires limit.rate > 0.0 && n < |times|
    ensures var charge := if Decisions(limit, times)[n] then 1.0 else 0.0;
            StateBefore(limit, times, n + 1) == Some(Bucket(AvailableAt(limit, times, n) - charge, times[n]))
  {
    DecisionAt(limit, times, n);
  }

  lemma AvailableAfter(limit: Limit, times: seq<real>, n: nat)
    requires limit.rate > 0.0 && 0 < n < |times|
    ensures var charge := if Decisions(limit, times)[n - 1] then 1.0 else 0.0;
            AvailableAt(limit, times, n)
            == Min(limit.burst as real, AvailableAt(limit, times, n - 1) - charge
                   + (Earned(limit, times, n) - Earned(limit, times, n - 1)))
  {
    StateAfter(limit, times, n - 1);
  }

  /** The bucket's own level is the level of its own schedule. */
  lemma {:induction false} AvailableIsLevel(limit: Limit, times: seq<real>, n: nat)
    requires limit.rate > 0.0 && n < |times|
    ensures AvailableAt(limit, times, n) == Level(limit, times, Decisions(limit, times), n)
  {
    if n == 0 {
      assert StateBefore(limit, times, n) == None;
    } else {
      AvailableIsLevel(limit, times, n - 1);
      AvailableAfter(limit, times, n);
    }
  }

  /** Exact closed form: the tokens available at request n are the minimum over i <= n of the capacity
      plus the refill since request i minus the admissions since then; the request is admitted exactly
      when that minimum is at least one. */
  lemma ClosedForm(limit: Limit, times: seq<real>, n: nat)
    requires limit.rate > 0.0 && n < |times|
    ensures var p := Decisions(limit, times);
            && (exists i :: 0 <= i <= n && AvailableAt(limit, times, n) == Bound(limit, times, p, i, n))
            && (forall i :: 0 <= i <= n ==> AvailableAt(limit, times, n) <= Bound(limit, times, p, i, n))
            && (ReplyAt(limit, times, n).allowed <==>
                forall i :: 0 <= i <= n ==> Bound(limit, times, p, i, n) >= 1.0)
  {
    AvailableIsLevel(limit, times, n);
    DecisionAt(limit, times, n);
    var i := LevelIsLeastBound(limit, times, Decisions(limit, times), n);
  }

  lemma {:induction false} EarnedIsMonotone(limit: Limit, times: seq<real>, i: nat, j: nat)
    requires limit.rate >= 0.0 && i <= j < |times|
    ensures Earned(limit, times, i) <= Earned(limit, times, j)
  {
    if i < j {
      EarnedIsMonotone(limit, times, i, j - 1);
      assert Refill(limit, times[j - 1], times[j]) >= 0.0;
    }
  }

  /** With a nondecreasing clock the refill earned is the refill of the elapsed time. */
  lemma {:induction false} EarnedIsElapsed(limit: Limit, times: seq<real>, i: nat, j: nat)
    requires i <= j < |times| && Nondecreasing(times)
    ensures Earned(limit, times, j) - Earned(limit, times, i) == Refill(limit, times[i], times[j])
  {
    if i < j {
      EarnedIsElapsed(limit, times, i, j - 1);
      RefillAdds(limit, times[i], times[j - 1], times[j]);
    }
  }

  lemma RefillAdds(limit: Limit, t0: real, t1: real, t2: real)
    requires t0 <= t1 <= t2
    ensures Refill(limit, t0, t2) == Refill(limit, t0, t1) + Refill(limit, t1, t2)
    ensures Refill(limit, t0, t2) == limit.rate * (t2 - t0)
  {
    assert (t2 - t0) * limit.rate == (t1 - t0) * limit.rate + (t2 - t1) * limit.rate;
  }

  predicate Nondecreasing(times: seq<real>) {
    forall i, j :: 0 <= i <= j < |times| ==> times[i] <= times[j]
  }

  lemma {:induction false} CountSplit(p: seq<bool>, i: nat, k: nat, j: nat)
    requires i <= k <= j <= |p|
    ensures Count(p, i, j) == Count(p, i, k) + Count(p, k, j)
  {
    if k < j {
      CountSplit(p, i, k, j - 1);
    }
  }

  // ---- What the limit permits ----

  /** A schedule can be run on a bucket of its own exactly when every window stays in its allowance. */
  lemma KeepsBucketIffWindows(limit: Limit, times: seq<real>, p: seq<bool>)
    requires limit.rate > 0.0 && |p| == |times|
    ensures KeepsBucket(limit, times, p) <==> KeepsWindows(limit, times, p)
  {
    if KeepsBucket(limit, times, p) {
      forall i, j | 0 <= i <= j < |times|
        ensures Count(p, i, j + 1) as real <= WindowAllowance(limit, times, i, j)
      {
        BucketKeepsWindow(limit, times, p, i, j);
      }
    }
    if KeepsWindows(limit, times, p) {
      forall n | 0 <= n < |times| && p[n]
        ensures Level(limit, times, p, n) >= 1.0
      {
        var i := LevelIsLeastBound(limit, times, p, n);
        assert Count(p, i, n + 1) as real <= WindowAllowance(limit, times, i, n);
      }
    }
  }

  lemma {:induction false} BucketKeepsWindow(limit: Limit, times: seq<real>, p: seq<bool>, i: nat, j: nat)
    requires limit.rate > 0.0 && |p| == |times| && i <= j < |times| && KeepsBucket(limit, times, p)
    ensures Count(p, i, j + 1) as real <= WindowAllowance(limit, times, i, j)
  {
    if p[j] {
      var k := LevelIsLeastBound(limit, times, p, j);
      assert Level(limit, times, p, j) <= Bound(limit, times, p, i, j);
    } else if i < j {
      BucketKeepsWindow(limit, times, p, i, j - 1);
      EarnedIsMonotone(limit, times, j - 1, j);
    } else {
      assert Count(p, i, i + 1) == 0;
    }
  }

  /** The bucket obeys the limit: every window [i, j], on any clock, admits at most the capacity and
      the refill earned in it. */
  lemma BucketObeysLimit(limit: Limit, times: seq<real>)
    requires limit.rate > 0.0
    ensures KeepsBucket(limit, times, Decisions(limit, times))
    ensures KeepsWindows(limit, times, Decisions(limit, times))
  {
    forall n | 0 <= n < |times| && Decisions(limit, times)[n]
      ensures Level(limit, times, Decisions(limit, times), n) >= 1.0
    {
      AvailableIsLevel(limit, times, n);
      DecisionAt(limit, times, n);
    }
    KeepsBucketIffWindows(limit, times, Decisions(limit, times));
  }

  /** With a nondecreasing clock, a window [i, j] admits at most the capacity and the refill of
      its length. */
  lemma WindowBound(limit: Limit, times: seq<real>, i: nat, j: nat)
    requires limit.rate > 0.0 && Nondecreasing(times) && i <= j < |times|
    ensures Count(Decisions(limit, times), i, j + 1) as real
            <= limit.burst as real + Refill(limit, times[i], times[j])
  {
    BucketObeysLimit(limit, times);
    EarnedIsElapsed(limit, times, i, j);
    assert Count(Decisions(limit, times), i, j + 1) as real <= WindowAllowance(limit, times, i, j);
  }

  /** The level always lies between empty and full, on any clock. */
  lemma {:induction false} LevelInRange(limit: Limit, times: seq<real>, n: nat)
    requires limit.rate > 0.0 && n <= |times|
    ensures n < |times| ==> 0.0 <= AvailableAt(limit, times, n) <= limit.burst as real
    ensures n > 0 ==> var b := StateBefore(limit, times, n).value;
                      0.0 <= b.tokens <= limit.burst as real && b.last == times[n - 1]
  {
    if n > 0 {
      LevelInRange(limit, times, n - 1);
      if n < |times| {
        assert Refill(limit, times[n - 1], times[n]) >= 0.0;
      }
    }
  }

  // ---- Optimality ----

  /** Greedy optimality: in every prefix, on any clock, the bucket has admitted at least as many
      requests as any policy whose windows obey the limit. */
  lemma {:induction false} GreedyIsOptimal(limit: Limit, times: seq<real>, p: seq<bool>, n: nat)
    requires limit.rate > 0.0 && |p| == |times| && n <= |times| && KeepsWindows(limit, times, p)
    ensures Count(p, 0, n) <= Count(Decisions(limit, times), 0, n)
  {
    if n > 0 {
      var g := Decisions(limit, times);
      var m := n - 1;
      GreedyIsOptimal(limit, times, p, m);
      if p[m] && !g[m] {
        // The bucket denied request m, so some window starting at i was exhausted.
        ClosedForm(limit, times, m);
        DecisionAt(limit, times, m);
        var i: nat :| i <= m && Bound(limit, times, g, i, m) < 1.0;
        assert Count(p, i, m + 1) as real <= WindowAllowance(limit, times, i, m);
        GreedyIsOptimal(limit, times, p, i);
        CountSplit(p, 0, i, m);
        CountSplit(g, 0, i, m);
      }
    }
  }

  /** The same against policies given by their own bucket rather than by windows. */
  lemma GreedyBeatsEveryBucket(limit: Limit, times: seq<real>, p: seq<bool>, n: nat)
    requires limit.rate > 0.0 && |p| == |times| && n <= |times| && KeepsBucket(limit, times, p)
    ensures Count(p, 0, n) <= Count(Decisions(limit, times), 0, n)
  {
    KeepsBucketIffWindows(limit, times, p);
    GreedyIsOptimal(limit, times, p, n);
  }

  // ---- The remaining count ----

  /** `remaining` is a promise: of further requests at the same instant exactly the first
      `remaining` are admitted. */
  lemma {:induction false} RemainingIsExact(limit: Limit, times: seq<real>, n: nat, m: nat)
    requires limit.rate > 0.0 && n + m + 1 < |times|
    requires forall k :: n <= k <= n + m + 1 ==> times[k] == times[n]
    ensures ReplyAt(limit, times, n + m + 1).allowed <==> m < ReplyAt(limit, times, n).remaining
    ensures ReplyAt(limit, times, n + m).remaining
            == if m < ReplyAt(limit, times, n).remaining then ReplyAt(limit, times, n).remaining - m else 0
  {
    NextInstant(limit, times, n + m);
    if m > 0 {
      RemainingIsExact(limit, times, n, m - 1);
    }
  }

  /** A request at the same instant as the one before it finds what that one left. */
  lemma NextInstant(limit: Limit, times: seq<real>, n: nat)
    requires limit.rate > 0.0 && n + 1 < |times| && times[n + 1] == times[n]
    ensures var left := AvailableAt(limit, times, n) - (if ReplyAt(limit, times, n).allowed then 1.0 else 0.0);
            && 0.0 <= left
            && ReplyAt(limit, times, n).remaining == left.Floor
            && StateBefore(limit, times, n + 1) == Some(Bucket(left, times[n]))
            && AvailableAt(limit, times, n + 1) == left
            && (ReplyAt(limit, times, n + 1).allowed <==> left >= 1.0)
  {
    StateAfter(limit, times, n);
    DecisionAt(limit, times, n);
    DecisionAt(limit, times, n + 1);
    LevelInRange(limit, times, n + 1);
    SameInstant(limit, StateBefore(limit, times, n + 1).value, times[n]);
  }

  /** A clock that stands still or goes back refills nothing. */
  lemma NoRefillBackwards(limit: Limit, times: seq<real>, n: nat)
    requires limit.rate > 0.0 && n + 1 < |times| && times[n + 1] <= times[n]
    ensures AvailableAt(limit, times, n + 1)
            == AvailableAt(limit, times, n) - (if ReplyAt(limit, times, n).allowed then 1.0 else 0.0)
  {
    StateAfter(limit, times, n);
    DecisionAt(limit, times, n);
    LevelInRange(limit, times, n + 1);
    assert Refill(limit, times[n], times[n + 1]) == 0.0;
  }

  // ---- What is always admitted ----

  lemma {:induction false} CountAtMost(p: seq<bool>, i: nat, j: nat)
    requires i <= j <= |p|
    ensures Count(p, i, j) <= j - i
  {
    if i < j {
      CountAtMost(p, i, j - 1);
    }
  }

  /** On every clock the first `burst` requests are admitted. */
  lemma FirstBurstIsAdmitted(limit: Limit, times: seq<real>, n: nat)
    requires limit.rate > 0.0 && n < |times| && n < limit.burst
    ensures ReplyAt(limit, times, n).allowed
  {
    var p := Decisions(limit, times);
    forall i | 0 <= i <= n
      ensures Bound(limit, times, p, i, n) >= 1.0
    {
      EarnedIsMonotone(limit, times, i, n);
      CountAtMost(p, i, n);
    }
    ClosedForm(limit, times, n);
  }

  /** A request that follows the last one after the time of one token is admitted, whatever came before. */
  lemma SpacedIsAdmitted(limit: Limit, times: seq<real>, n: nat)
    requires limit.rate > 0.0 && limit.burst >= 1 && n + 1 < |times|
    requires Refill(limit, times[n], times[n + 1]) >= 1.0
    ensures ReplyAt(limit, times, n + 1).allowed
  {
    LevelInRange(limit, times, n + 1);
    DecisionAt(limit, times, n + 1);
  }

  /** No time passed, nothing refilled. */
  lemma SameInstant(limit: Limit, b: Bucket, now: real)
    requires b.last == now && b.tokens <= limit.burst as real
    ensures Available(limit, Some(b), now) == b.tokens
  {
    assert Refill(limit, b.last, now) == 0.0;
  }
}
