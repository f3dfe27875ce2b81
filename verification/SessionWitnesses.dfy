/** Runs without failing calls in which a revoked session comes back, and that attain the staleness bounds. */
module SessionWitnesses {
  import opened Wrappers
  import opened SessionStores
  import opened SessionCalls
  import opened SessionMachine
  import opened SessionResults
  import opened SessionCache

  /** No store call fails and no request crashes. */
  predicate Flawless(steps: seq<Step>) {
    forall n :: 0 <= n < |steps| ==> !steps[n].Crash? && (steps[n].Advance? ==> steps[n].outcome == Done)
  }

  /** Step k answers a request with `reply`. */
  predicate Answers(trace: seq<Machine>, steps: seq<Step>, k: nat, reply: Reply)
    requires k < |steps| < |trace|
  {
    && steps[k].Advance? && steps[k].id in trace[k].flights
    && var m := trace[k];
    && StepCall(m.stores, m.now, m.flights[steps[k].id].call, steps[k].outcome).1 == Finished(reply)
  }

  /** One more step of a flawless run. */
  lemma Extend(trace: seq<Machine>, steps: seq<Step>, step: Step, limit: nat)
    returns (trace': seq<Machine>, steps': seq<Step>, m: Machine)
    requires IsRun(trace, steps, limit) && Enabled(trace[|steps|], step, limit)
    requires Flawless(steps) && !step.Crash? && (step.Advance? ==> step.outcome == Done)
    ensures IsRun(trace', steps', limit) && Flawless(steps')
    ensures m == Next(trace[|steps|], step) && trace' == trace + [m] && steps' == steps + [step]
  {
    m := Next(trace[|steps|], step);
    trace', steps' := trace + [m], steps + [step];
    forall n | 0 <= n < |steps'| ensures StepAt(trace', steps', n, limit) {
      assert n < |steps| ==> StepAt(trace, steps, n, limit);
    }
  }

  lemma CreationBegun(access: Token, r: Token, user: User, id: SessionId, limit: nat)
    returns (trace: seq<Machine>, steps: seq<Step>, m: Machine)
    ensures IsRun(trace, steps, limit) && Flawless(steps) && |steps| == 2 && m == trace[|steps|]
    ensures m.now == 0 && m.flights == map[0 := Flight(CreateAccess(user, access, r), 0)]
    ensures m.stores == Stores(map[r := Session(id, user)], map[])
  {
    trace, steps := [INITIAL], [];
    trace, steps, m := Extend(trace, steps, Start(0, CreateRow(id, user, access, r)), limit);
    assert m.flights == map[0 := Flight(CreateRow(id, user, access, r), 0)];
    trace, steps, m := Extend(trace, steps, Advance(0, Done), limit);
  }

  lemma SessionIssued(access: Token, r: Token, user: User, id: SessionId, limit: nat)
    returns (trace: seq<Machine>, steps: seq<Step>, m: Machine)
    ensures IsRun(trace, steps, limit) && Flawless(steps) && |steps| == 4 && m == trace[|steps|]
    ensures Answers(trace, steps, 3, Issued(access, r)) && m.now == 0 && m.flights == map[]
    ensures m.stores.rows == map[r := Session(id, user)]
  {
    trace, steps, m := CreationBegun(access, r, user, id, limit);
    trace, steps, m := Extend(trace, steps, Advance(0, Done), limit);
    assert m.flights == map[0 := Flight(CreateRefresh(user, access, r), 0)];
    assert trace[3] == m;
    trace, steps, m := Extend(trace, steps, Advance(0, Done), limit);
  }

  /** ... its refresh entry then evicted, and a refresh that missed the cache and read the row. */
  lemma RowRead(access: Token, next: Token, r: Token, user: User, id: SessionId, limit: nat)
    returns (trace: seq<Machine>, steps: seq<Step>, m: Machine)
    ensures IsRun(trace, steps, limit) && Flawless(steps) && |steps| == 8 && m == trace[|steps|]
    ensures Answers(trace, steps, 3, Issued(access, r))
    ensures m.now == 0 && m.flights == map[0 := Flight(RefreshFill(user, next, r), 0)]
    ensures m.stores.rows == map[r := Session(id, user)] && RefreshKey(r) !in m.stores.cache
  {
    trace, steps, m := SessionIssued(access, r, user, id, limit);
    ghost var issued := trace;
    trace, steps, m := Extend(trace, steps, Evict({RefreshKey(r)}), limit);
    trace, steps, m := Extend(trace, steps, Start(0, RefreshRead(next, r)), limit);
    trace, steps, m := ReadsRow(trace, steps, next, r, limit);
    assert trace[3] == issued[3] && trace[4] == issued[4];
  }

  lemma ReadsRow(trace: seq<Machine>, steps: seq<Step>, next: Token, r: Token, limit: nat)
    returns (trace': seq<Machine>, steps': seq<Step>, m: Machine)
    requires IsRun(trace, steps, limit) && Flawless(steps)
    requires var m := trace[|steps|];
             && m.flights == map[0 := Flight(RefreshRead(next, r), m.now)]
             && r in m.stores.rows && RefreshKey(r) !in m.stores.cache
    ensures IsRun(trace', steps', limit) && Flawless(steps') && |steps'| == |steps| + 2 && m == trace'[|steps'|]
    ensures trace <= trace' && steps <= steps'
    ensures var before := trace[|steps|];
            && m.now == before.now && m.stores == before.stores
            && m.flights == map[0 := Flight(RefreshFill(before.stores.rows[r].user, next, r), before.now)]
  {
    trace', steps', m := Extend(trace, steps, Advance(0, Done), limit);
    assert m.flights == map[0 := Flight(RefreshQuery(next, r), m.now)];
    trace', steps', m := Extend(trace', steps', Advance(0, Done), limit);
  }

  // ---- A race ----

  lemma RevocationBegun(trace: seq<Machine>, steps: seq<Step>, r: Token, limit: nat)
    returns (trace': seq<Machine>, steps': seq<Step>, m: Machine)
    requires IsRun(trace, steps, limit) && Flawless(steps)
    requires 1 !in trace[|steps|].flights && r in trace[|steps|].stores.rows
    ensures IsRun(trace', steps', limit) && Flawless(steps') && |steps'| == |steps| + 2 && m == trace'[|steps'|]
    ensures trace <= trace' && steps <= steps'
    ensures var before := trace[|steps|];
            && m.now == before.now && m.stores == before.stores
            && m.flights == before.flights[1 := Flight(RevokeDelete(before.stores.rows[r].id, r), m.now)]
  {
    trace', steps', m := Extend(trace, steps, Start(1, RevokeFind(r)), limit);
    assert m.flights == trace[|steps|].flights[1 := Flight(RevokeFind(r), m.now)];
    trace', steps', m := Extend(trace', steps', Advance(1, Done), limit);
  }

  lemma RevokedMeanwhile(trace: seq<Machine>, steps: seq<Step>, fill: Call, r: Token, limit: nat)
    returns (trace': seq<Machine>, steps': seq<Step>, m: Machine)
    requires IsRun(trace, steps, limit) && Flawless(steps)
    requires var m := trace[|steps|]; m.flights == map[0 := Flight(fill, m.now)] && m.stores.rows.Keys == {r}
    ensures IsRun(trace', steps', limit) && Flawless(steps') && |steps'| == |steps| + 4 && m == trace'[|steps'|]
    ensures trace <= trace' && steps <= steps' && Answers(trace', steps', |steps| + 3, Revoked)
    ensures var before := trace[|steps|];
            m.now == before.now && m.stores.rows == map[] && m.flights == before.flights
  {
    trace', steps', m := RevocationBegun(trace, steps, r, limit);
    trace', steps', m := Extend(trace', steps', Advance(1, Done), limit);
    assert m.flights == trace[|steps|].flights[1 := Flight(RevokeForget(r), m.now)];
    ghost var deleted := m;
    trace', steps', m := Extend(trace', steps', Advance(1, Done), limit);
    assert trace'[|steps| + 3] == deleted;
  }

  lemma RefreshEnds(trace: seq<Machine>, steps: seq<Step>, user: User, next: Token, r: Token, limit: nat)
    returns (trace': seq<Machine>, steps': seq<Step>, m: Machine)
    requires IsRun(trace, steps, limit) && Flawless(steps)
    requires var m := trace[|steps|];
             && m.flights.Keys == {0} && m.flights[0].call == RefreshFill(user, next, r)
             && m.now <= m.flights[0].since + limit
    ensures IsRun(trace', steps', limit) && Flawless(steps') && |steps'| == |steps| + 2 && m == trace'[|steps'|]
    ensures trace <= trace' && steps <= steps' && Answers(trace', steps', |steps| + 1, Renewed(next))
    ensures var before := trace[|steps|];
            && m.now == before.now && m.flights == map[] && m.stores.rows == before.stores.rows
            && RefreshKey(r) in m.stores.cache
            && m.stores.cache[RefreshKey(r)] == Entry(user, m.now + REFRESH_TOKEN_TTL)
  {
    trace', steps', m := Extend(trace, steps, Advance(0, Done), limit);
    assert m.flights == map[0 := Flight(RefreshSet(user, next, r), trace[|steps|].flights[0].since)];
    ghost var filled := m;
    trace', steps', m := Extend(trace', steps', Advance(0, Done), limit);
    assert trace'[|steps| + 1] == filled;
  }

  /** A session that was issued to its client, revoked by it with success, and is live again in the end: a
      refresh read its row before the revocation and fills the cache after it. No call fails, and time stands
      still. */
  lemma RaceIsReachable(access: Token, next: Token, r: Token, user: User, id: SessionId)
    returns (trace: seq<Machine>, steps: seq<Step>, m: Machine)
    ensures IsRun(trace, steps, 0) && Flawless(steps) && |steps| == 14 && m == trace[|steps|]
    ensures Answers(trace, steps, 3, Issued(access, r)) && Answers(trace, steps, 11, Revoked)
    ensures Answers(trace, steps, 13, Renewed(next))
    ensures m.flights == map[] && r !in m.stores.rows && Live(m.stores.cache, RefreshKey(r), m.now) == Some(user)
    ensures !Agrees(m.stores, m.now)
  {
    trace, steps, m := RowRead(access, next, r, user, id, 0);
    ghost var read := trace;
    trace, steps, m := RevokedMeanwhile(trace, steps, RefreshFill(user, next, r), r, 0);
    assert trace[3] == read[3];
    ghost var revoked := trace;
    trace, steps, m := RefreshEnds(trace, steps, user, next, r, 0);
    assert trace[3] == revoked[3] && trace[11] == revoked[11];
    assert !AgreesOn(m.stores, m.now, r);
  }

  // ---- Staleness ----

  /** Without failing calls or interruptions: a token cached at time t and deleted by RevokeAll in that instant
      renews during its whole cache lifetime, and the access tokens it yields last their own. */
  lemma StalenessIsReached(s: Stores, t: int, now: int, later: int, r: Token, access: Token)
    requires r in s.rows && RefreshKey(r) in s.cache
    requires s.cache[RefreshKey(r)] == Entry(s.rows[r].user, t + REFRESH_TOKEN_TTL)
    requires t <= now < t + REFRESH_TOKEN_TTL && now <= later < now + ACCESS_TOKEN_TTL
    ensures var deleted := RunCall(s, t, RevokeAllDelete(s.rows[r].user), [Done], 0).0;
            var (after, reply) := RunCall(deleted, now, RefreshRead(access, r), [Done, Done, Done, Done], 0);
            && r !in deleted.rows && reply == Renewed(access)
            && Live(after.cache, AccessKey(access), later) == Some(s.rows[r].user)
  {
    var deleted := RunCall(s, t, RevokeAllDelete(s.rows[r].user), [Done], 0).0;
    RefreshEffect(deleted, now, access, r, [Done, Done, Done, Done]);
  }

  lemma AllRevoked(trace: seq<Machine>, steps: seq<Step>, user: User, r: Token, limit: nat)
    returns (trace': seq<Machine>, steps': seq<Step>, m: Machine)
    requires IsRun(trace, steps, limit) && Flawless(steps)
    requires var m := trace[|steps|]; 1 !in m.flights && r in m.stores.rows && m.stores.rows[r].user == user
    ensures IsRun(trace', steps', limit) && Flawless(steps') && |steps'| == |steps| + 2 && m == trace'[|steps'|]
    ensures trace'[|steps| + 1].now == m.now == trace[|steps|].now && DeletedBy(trace', |steps| + 1, r)
    ensures m.flights == trace[|steps|].flights
  {
    trace', steps', m := Extend(trace, steps, Start(1, RevokeAllDelete(user)), limit);
    trace', steps', m := Extend(trace', steps', Advance(1, Done), limit);
  }

  lemma RefreshHits(trace: seq<Machine>, steps: seq<Step>, user: User, last: Token, r: Token, limit: nat)
    returns (trace': seq<Machine>, steps': seq<Step>, m: Machine)
    requires IsRun(trace, steps, limit) && Flawless(steps) && trace[|steps|].flights == map[]
    requires Live(trace[|steps|].stores.cache, RefreshKey(r), trace[|steps|].now) == Some(user)
    ensures IsRun(trace', steps', limit) && Flawless(steps') && |steps'| == |steps| + 3 && m == trace'[|steps'|]
    ensures trace <= trace' && trace'[|steps|] == trace[|steps|]
    ensures m.now == trace[|steps|].now + limit
    ensures m.flights == map[1 := Flight(RefreshSet(user, last, r), trace[|steps|].now)]
  {
    trace', steps', m := Extend(trace, steps, Start(1, RefreshRead(last, r)), limit);
    assert m.flights == map[1 := Flight(RefreshRead(last, r), m.now)];
    trace', steps', m := Extend(trace', steps', Advance(1, Done), limit);
    trace', steps', m := Extend(trace', steps', Tick(limit), limit);
  }

  lemma RefreshWrites(trace: seq<Machine>, steps: seq<Step>, user: User, last: Token, r: Token, limit: nat)
    returns (trace': seq<Machine>, steps': seq<Step>, m: Machine)
    requires IsRun(trace, steps, limit) && Flawless(steps)
    requires 1 in trace[|steps|].flights && trace[|steps|].flights[1].call == RefreshSet(user, last, r)
    requires trace[|steps|].now <= trace[|steps|].flights[1].since + limit
    ensures IsRun(trace', steps', limit) && Flawless(steps') && |steps'| == |steps| + 2 && m == trace'[|steps'|]
    ensures trace <= trace'
    ensures m.now == trace[|steps|].now + ACCESS_TOKEN_TTL - 1
    ensures last in m.writes && m.writes[last].refresh == r
    ensures Live(m.stores.cache, AccessKey(last), m.now) == Some(user)
  {
    trace', steps', m := Extend(trace, steps, Advance(1, Done), limit);
    trace', steps', m := Extend(trace', steps', Tick(ACCESS_TOKEN_TTL - 1), limit);
  }

  lemma DeletedThenFilled(access: Token, next: Token, r: Token, user: User, id: SessionId, limit: nat)
    returns (trace: seq<Machine>, steps: seq<Step>, m: Machine, k: nat)
    ensures IsRun(trace, steps, limit) && Flawless(steps) && m == trace[|steps|]
    ensures k < |steps| && DeletedBy(trace, k, r) && trace[k].now == 0
    ensures m.now == limit && m.flights == map[] && RefreshKey(r) in m.stores.cache
    ensures m.stores.cache[RefreshKey(r)] == Entry(user, limit + REFRESH_TOKEN_TTL)
  {
    trace, steps, m := RowRead(access, next, r, user, id, limit);
    k := |steps| + 1;
    trace, steps, m := AllRevoked(trace, steps, user, r, limit);
    ghost var revoked := trace;
    trace, steps, m := Extend(trace, steps, Tick(limit), limit);
    assert trace[k] == revoked[k] && trace[k + 1] == revoked[k + 1];
    ghost var waited := trace;
    trace, steps, m := RefreshEnds(trace, steps, user, next, r, limit);
    assert trace[k] == waited[k] && trace[k + 1] == waited[k + 1];
  }

  /** The bounds of BoundedStaleness are tight for every limit, without a failing call: in some run that meets
      the limit, a row is deleted in step k, its token is still live in state i, one second before the bound; a
      refresh with it that starts then comes to write its access token; and that is live in state n, one second
      before its bound. */
  lemma StalenessIsAttained(access: Token, next: Token, last: Token, r: Token, user: User, id: SessionId, limit: nat)
    returns (trace: seq<Machine>, steps: seq<Step>, k: nat, i: nat, j: nat, n: nat)
    ensures IsRun(trace, steps, limit) && Flawless(steps)
    ensures k < i < j < n < |trace| && DeletedBy(trace, k, r)
    ensures trace[i].now == trace[k].now + limit + REFRESH_TOKEN_TTL - 1
    ensures Live(trace[i].stores.cache, RefreshKey(r), trace[i].now) == Some(user)
    ensures 1 in trace[j].flights && trace[j].flights[1] == Flight(RefreshSet(user, last, r), trace[i].now)
    ensures trace[n].now == trace[k].now + 2 * limit + REFRESH_TOKEN_TTL + ACCESS_TOKEN_TTL - 2
    ensures last in trace[n].writes && trace[n].writes[last].refresh == r
    ensures Live(trace[n].stores.cache, AccessKey(last), trace[n].now) == Some(user)
  {
    ghost var m: Machine;
    trace, steps, m, k := DeletedThenFilled(access, next, r, user, id, limit);
    ghost var filled := trace;
    trace, steps, m := Extend(trace, steps, Tick(REFRESH_TOKEN_TTL - 1), limit);
    i := |steps|;
    ghost var waited := trace;
    assert trace[k] == filled[k] && trace[k + 1] == filled[k + 1];
    trace, steps, m := RefreshHits(trace, steps, user, last, r, limit);
    j := |steps|;
    ghost var hit := trace;
    assert trace[k] == waited[k] && trace[k + 1] == waited[k + 1];
    trace, steps, m := RefreshWrites(trace, steps, user, last, r, limit);
    n := |steps|;
    assert trace[k] == hit[k] && trace[k + 1] == hit[k + 1] && trace[i] == hit[i] && trace[j] == hit[j];
  }
}
