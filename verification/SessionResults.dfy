/** What holds in every run of the session machine: provenance of every cache entry, one user per
    refresh token, and bounded staleness after a session row is deleted. */
module SessionResults {
  import opened SessionStores
  import opened SessionCalls
  import opened SessionMachine

  // ---- History is what the run did ----

  /** The table held a row for `r` and `user` after the first n steps. */
  predicate HadRow(trace: seq<Machine>, n: nat, r: Token, user: User)
    requires n < |trace|
  {
    var rows := trace[n].stores.rows;
    r in rows && rows[r].user == user
  }

  /** Step n wrote access entry `a` for `w`: as a creation of, or a refresh with, the token w.refresh. */
  predicate Wrote(trace: seq<Machine>, steps: seq<Step>, n: nat, a: Token, w: Write)
    requires n < |steps| < |trace|
  {
    var m, step := trace[n], steps[n];
    && step.Advance? && step.id in m.flights && step.outcome.Applied() && w.at == m.now
    && var call := m.flights[step.id].call;
    && (call == CreateAccess(w.user, a, w.refresh) || call == RefreshSet(w.user, a, w.refresh))
  }

  lemma {:induction false} BoundHadRow(trace: seq<Machine>, steps: seq<Step>, n: nat, limit: nat, r: Token)
    returns (k: nat)
    requires IsRun(trace, steps, limit) && n < |trace| && r in trace[n].bound
    ensures k <= n && HadRow(trace, k, r, trace[n].bound[r])
  {
    assert n > 0 && StepAt(trace, steps, n - 1, limit);
    var m, step := trace[n - 1], steps[n - 1];
    if r in m.bound && trace[n].bound[r] == m.bound[r] {
      k := BoundHadRow(trace, steps, n - 1, limit, r);
    } else {
      assert step.Advance? && trace[n] == AdvanceCall(m, step.id, step.outcome);
      k := n;
    }
  }

  lemma {:induction false} WriteWasMade(trace: seq<Machine>, steps: seq<Step>, n: nat, limit: nat, a: Token)
    returns (k: nat)
    requires IsRun(trace, steps, limit) && n < |trace| && a in trace[n].writes
    ensures k < n && Wrote(trace, steps, k, a, trace[n].writes[a])
  {
    assert n > 0 && StepAt(trace, steps, n - 1, limit);
    var m := trace[n - 1];
    if a in m.writes && trace[n].writes[a] == m.writes[a] {
      k := WriteWasMade(trace, steps, n - 1, limit, a);
    } else {
      k := n - 1;
    }
  }

  // ---- Provenance ----

  /** Every cached refresh entry has, or had, a session row with its token and user. */
  lemma RefreshProvenance(trace: seq<Machine>, steps: seq<Step>, n: nat, r: Token) returns (k: nat)
    requires IsFreeRun(trace, steps) && n < |trace| && RefreshKey(r) in trace[n].stores.cache
    ensures k <= n && HadRow(trace, k, r, trace[n].stores.cache[RefreshKey(r)].user)
  {
    var limit := SomeLimit(trace, steps);
    EveryStateInv(trace, steps, n, limit);
    assert RefreshEntryOk(trace[n], r, limit);
    k := BoundHadRow(trace, steps, n, limit, r);
  }

  /** Every cached access entry was written by a creation for its user, or by a refresh with a token
      bound to its user, and expires exactly the access lifetime after that write. */
  lemma AccessProvenance(trace: seq<Machine>, steps: seq<Step>, n: nat, a: Token)
    returns (k: nat, j: nat, w: Write)
    requires IsFreeRun(trace, steps) && n < |trace| && AccessKey(a) in trace[n].stores.cache
    ensures k < n && Wrote(trace, steps, k, a, w)
    ensures a in trace[n].writes && w == trace[n].writes[a]
    ensures trace[n].stores.cache[AccessKey(a)] == Entry(w.user, w.at + ACCESS_TOKEN_TTL)
    ensures j <= n && HadRow(trace, j, w.refresh, w.user)
  {
    var m := trace[n];
    var limit := SomeLimit(trace, steps);
    EveryStateInv(trace, steps, n, limit);
    assert AccessEntryOk(m, a, limit);
    k := WriteWasMade(trace, steps, n, limit, a);
    w := m.writes[a];
    j := BoundHadRow(trace, steps, n, limit, w.refresh);
  }

  lemma NextKeepsHistory(m: Machine, step: Step, limit: nat, r: Token)
    requires Inv(m, limit) && Enabled(m, step, limit) && r in m.bound
    ensures r in Next(m, step).bound && Next(m, step).bound[r] == m.bound[r]
    ensures r in m.deletedAt ==> r in Next(m, step).deletedAt && Next(m, step).deletedAt[r] == m.deletedAt[r]
  {
    if step.Advance? {
      assert FlightOk(m, m.flights[step.id], limit);
    }
  }

  lemma {:induction false} HistoryPersists(trace: seq<Machine>, steps: seq<Step>, k: nat, n: nat, limit: nat, r: Token)
    requires IsRun(trace, steps, limit) && k <= n < |trace| && r in trace[k].bound
    ensures r in trace[n].bound && trace[n].bound[r] == trace[k].bound[r]
    ensures r in trace[k].deletedAt ==>
              && r in trace[n].deletedAt
              && trace[n].deletedAt[r] == trace[k].deletedAt[r]
  {
    if k < n {
      HistoryPersists(trace, steps, k, n - 1, limit, r);
      EveryStateInv(trace, steps, n - 1, limit);
      assert StepAt(trace, steps, n - 1, limit);
      NextKeepsHistory(trace[n - 1], steps[n - 1], limit, r);
    }
  }

  /** What a lookup of `r` in either store can answer. */
  predicate Resolves(m: Machine, r: Token, user: User) {
    || (r in m.stores.rows && m.stores.rows[r].user == user)
    || (RefreshKey(r) in m.stores.cache && m.stores.cache[RefreshKey(r)].user == user)
  }

  /** No refresh token ever resolves to two users, in any two states of a run. */
  lemma OneUserPerToken(trace: seq<Machine>, steps: seq<Step>, k: nat, n: nat, r: Token, u: User, v: User)
    requires IsFreeRun(trace, steps) && k <= n < |trace|
    requires Resolves(trace[k], r, u) && Resolves(trace[n], r, v)
    ensures u == v
  {
    var limit := SomeLimit(trace, steps);
    EveryStateInv(trace, steps, k, limit);
    EveryStateInv(trace, steps, n, limit);
    assert RefreshEntryOk(trace[k], r, limit) && RefreshEntryOk(trace[n], r, limit);
    HistoryPersists(trace, steps, k, n, limit, r);
  }

  // ---- Staleness ----

  /** Step k deleted the row of `r`. */
  predicate DeletedBy(trace: seq<Machine>, k: nat, r: Token)
    requires k + 1 < |trace|
  {
    r in trace[k].stores.rows && r !in trace[k + 1].stores.rows
  }

  lemma DeletionIsRecorded(trace: seq<Machine>, steps: seq<Step>, k: nat, limit: nat, r: Token)
    requires IsRun(trace, steps, limit) && k < |steps| && DeletedBy(trace, k, r)
    ensures r in trace[k + 1].deletedAt && trace[k + 1].deletedAt[r] == trace[k].now
  {
    assert StepAt(trace, steps, k, limit);
  }

  /** The token `r` of a row deleted at `t` no longer works in state `m`, up to the lifetime of its
      cache entry and of the access tokens written meanwhile. */
  ghost predicate StaleUntil(m: Machine, r: Token, t: int, limit: nat) {
    && r !in m.stores.rows
    && (m.now >= t + limit + REFRESH_TOKEN_TTL ==> Live(m.stores.cache, RefreshKey(r), m.now).None?)
    && (forall id :: id in m.flights ==> RefreshStartedInTime(m.flights[id], r, t + limit + REFRESH_TOKEN_TTL))
    && (m.now >= t + 2 * limit + REFRESH_TOKEN_TTL + ACCESS_TOKEN_TTL - 1 ==> forall a :: a in m.writes ==>
          (m.writes[a].refresh == r ==> Live(m.stores.cache, AccessKey(a), m.now).None?))
  }

  /** A refresh with `r` that is about to write an access token started before `deadline`. */
  predicate RefreshStartedInTime(f: Flight, r: Token, deadline: int) {
    f.call.RefreshSet? && f.call.refresh == r ==> f.since < deadline
  }

  lemma DeletedIsStale(m: Machine, r: Token, t: int, limit: nat)
    requires Inv(m, limit) && r in m.deletedAt && m.deletedAt[r] == t
    ensures StaleUntil(m, r, t, limit)
  {
    assert RefreshEntryOk(m, r, limit);
    forall id | id in m.flights
      ensures RefreshStartedInTime(m.flights[id], r, t + limit + REFRESH_TOKEN_TTL)
    {
      assert FlightOk(m, m.flights[id], limit);
    }
    forall a | a in m.writes && m.writes[a].refresh == r
      ensures Live(m.stores.cache, AccessKey(a), m.now).Some? ==>
                m.now < t + 2 * limit + REFRESH_TOKEN_TTL + ACCESS_TOKEN_TTL - 1
    {
      assert AccessEntryOk(m, a, limit);
    }
  }

  /** Bounded staleness in every interleaving. After the row of `r` is deleted at time T, by whatever
      operation: it never comes back; its cache entry is not live from T + limit + the refresh lifetime
      on; no refresh that started from then on gets as far as writing an access token; and no access
      token written for it is live from T + 2 * limit + both lifetimes on, nor in the second before, as
      the clock counts whole seconds. */
  lemma BoundedStaleness(trace: seq<Machine>, steps: seq<Step>, k: nat, n: nat, limit: nat, r: Token)
    requires IsRun(trace, steps, limit) && k < n < |trace| && DeletedBy(trace, k, r)
    ensures StaleUntil(trace[n], r, trace[k].now, limit)
  {
    EveryStateInv(trace, steps, k + 1, limit);
    DeletionIsRecorded(trace, steps, k, limit, r);
    HistoryPersists(trace, steps, k + 1, n, limit, r);
    EveryStateInv(trace, steps, n, limit);
    DeletedIsStale(trace[n], r, trace[k].now, limit);
  }
}
