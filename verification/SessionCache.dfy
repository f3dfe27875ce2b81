/** Where the refresh cache agrees with the session table, and exactly where it stops to. */
module SessionCache {
  import opened Wrappers
  import opened SessionStores
  import opened SessionCalls
  import opened SessionMachine
  import opened SessionAtomic

  /** A live cache entry of `r` is backed by its row. */
  predicate AgreesOn(s: Stores, now: int, r: Token) {
    var user := Live(s.cache, RefreshKey(r), now);
    user.Some? ==> r in s.rows && s.rows[r].user == user.value
  }

  ghost predicate Agrees(s: Stores, now: int) {
    forall r :: AgreesOn(s, now, r)
  }

  /** The stores after a creation: exactly as far as its store calls got. */
  lemma CreateEffect(s: Stores, now: int, call: Call, outs: seq<Outcome>)
    requires call.CreateRow? && |outs| >= 3
    ensures var (after, reply) := RunCall(s, now, call, outs, 0);
            var access, refresh := Entry(call.user, now + 15 * 60), Entry(call.user, now + 7 * 24 * 3600);
            var free := call.refresh !in s.rows && forall r :: r in s.rows ==> s.rows[r].id != call.id;
            var inserted := free && outs[0] != Refused;
            var accessSet := free && outs[0] == Done && outs[1] != Refused;
            var refreshSet := free && outs[0] == Done && outs[1] == Done && outs[2] != Refused;
            && after.rows == (if inserted then s.rows[call.refresh := Session(call.id, call.user)] else s.rows)
            && after.cache
               == (if refreshSet then s.cache[AccessKey(call.access) := access][RefreshKey(call.refresh) := refresh]
                   else if accessSet then s.cache[AccessKey(call.access) := access]
                   else s.cache)
            && reply == (if refreshSet && outs[2] == Done then Issued(call.access, call.refresh)
                         else Rejected(StoreFailure))
  {
    var CreateRow(id, user, access, refresh) := call;
    assert Insertable(s.rows, id, refresh) <==> refresh !in s.rows && forall r :: r in s.rows ==> s.rows[r].id != id;
    if Insertable(s.rows, id, refresh) && outs[0].Done? {
      var s1 := StepCall(s, now, call, outs[0]).0;
      assert RunCall(s, now, call, outs, 0) == RunCall(s1, now, CreateAccess(user, access, refresh), outs, 1);
      var s2 := StepCall(s1, now, CreateAccess(user, access, refresh), outs[1]).0;
      if outs[1].Done? {
        assert RunCall(s1, now, CreateAccess(user, access, refresh), outs, 1)
            == RunCall(s2, now, CreateRefresh(user, access, refresh), outs, 2);
      }
    }
  }

  /** Without failing calls a session is issued exactly when its refresh token and its id are new: then the row
      is there and both tokens work at once; otherwise nothing changes. */
  lemma CreationSucceedsIff(s: Stores, now: int, id: SessionId, user: User, access: Token, refresh: Token)
    ensures var (after, reply) := RunCall(s, now, CreateRow(id, user, access, refresh), [Done, Done, Done], 0);
            if refresh !in s.rows && forall r :: r in s.rows ==> s.rows[r].id != id then
              && reply == Issued(access, refresh) && after.rows == s.rows[refresh := Session(id, user)]
              && Live(after.cache, AccessKey(access), now) == Some(user)
              && Live(after.cache, RefreshKey(refresh), now) == Some(user)
            else reply == Rejected(StoreFailure) && after == s
  {
    CreateEffect(s, now, CreateRow(id, user, access, refresh), [Done, Done, Done]);
  }

  lemma CreateAgrees(s: Stores, now: int, call: Call, outs: seq<Outcome>)
    requires Agrees(s, now) && call.CreateRow? && |outs| >= 3
    ensures Agrees(RunCall(s, now, call, outs, 0).0, now)
  {
    var after := RunCall(s, now, call, outs, 0).0;
    CreateEffect(s, now, call, outs);
    forall r ensures AgreesOn(after, now, r) {
      assert AgreesOn(s, now, r);
    }
  }

  /** A cache after a write that was not refused. */
  function Written(cache: Cache, key: Key, user: User, expiresAt: int, o: Outcome): (after: Cache)
    ensures o == Refused ==> after == cache
    ensures o != Refused ==> after == cache[key := Entry(user, expiresAt)]
  {
    if o == Refused then cache else cache[key := Entry(user, expiresAt)]
  }

  /** The stores after a refresh with `r`: what it resolved to, and what it wrote. */
  lemma RefreshEffect(s: Stores, now: int, access: Token, r: Token, outs: seq<Outcome>)
    requires |outs| >= 4
    ensures var (after, reply) := RunCall(s, now, RefreshRead(access, r), outs, 0);
            var key := RefreshKey(r);
            var hit := outs[0] == Done && key in s.cache && now < s.cache[key].expiresAt;
            var found := !hit && outs[1] == Done && r in s.rows;
            && after.rows == s.rows
            && (hit ==>
                  && after.cache == Written(s.cache, AccessKey(access), s.cache[key].user, now + 15 * 60, outs[1])
                  && reply == if outs[1] == Done then Renewed(access) else Rejected(StoreFailure))
            && (found ==>
                  && after.cache == Written(Written(s.cache, key, s.rows[r].user, now + 7 * 24 * 3600, outs[2]),
                                            AccessKey(access), s.rows[r].user, now + 15 * 60, outs[3])
                  && reply == if outs[3] == Done then Renewed(access) else Rejected(StoreFailure))
            && (!hit && !found ==>
                  && after.cache == s.cache
                  && reply == Rejected(if outs[1] == Done then InvalidRefreshToken else StoreFailure))
  {
    var run := RunCall(s, now, RefreshRead(access, r), outs, 0);
    if outs[0].Done? && Live(s.cache, RefreshKey(r), now).Some? {
      assert run == RunCall(s, now, RefreshSet(Live(s.cache, RefreshKey(r), now).value, access, r), outs, 1);
    } else {
      assert run == RunCall(s, now, RefreshQuery(access, r), outs, 1);
      if outs[1].Done? && r in s.rows {
        var user := s.rows[r].user;
        var filled := SetKey(s, RefreshKey(r), user, now + REFRESH_TOKEN_TTL, outs[2]);
        assert run == RunCall(s, now, RefreshFill(user, access, r), outs, 2);
        assert run == RunCall(filled, now, RefreshSet(user, access, r), outs, 3);
      }
    }
  }

  lemma RefreshAgrees(s: Stores, now: int, access: Token, refresh: Token, outs: seq<Outcome>)
    requires Agrees(s, now) && |outs| >= 4
    ensures Agrees(RunCall(s, now, RefreshRead(access, refresh), outs, 0).0, now)
  {
    var after := RunCall(s, now, RefreshRead(access, refresh), outs, 0).0;
    RefreshEffect(s, now, access, refresh, outs);
    forall r ensures AgreesOn(after, now, r) {
      assert AgreesOn(s, now, r) && AgreesOn(s, now, refresh);
    }
  }

  /** Cache transparency of one refresh: while the cache agrees with the table, it accepts a token only
      if the table holds it, for the table's user, and calls a token invalid only if the table does not
      hold it; without failing store calls it answers exactly as a lookup in the table alone. */
  lemma RefreshIsTransparent(s: Stores, now: int, access: Token, r: Token, outs: seq<Outcome>)
    requires Agrees(s, now) && |outs| >= 4
    ensures var (after, reply) := RunCall(s, now, RefreshRead(access, r), outs, 0);
            && (reply == Renewed(access) ==>
                  r in s.rows && AccessKey(access) in after.cache
                  && after.cache[AccessKey(access)] == Entry(s.rows[r].user, now + ACCESS_TOKEN_TTL))
            && (reply == Rejected(InvalidRefreshToken) ==> r !in s.rows)
            && (outs[..4] == [Done, Done, Done, Done] ==>
                  reply == if r in s.rows then Renewed(access) else Rejected(InvalidRefreshToken))
  {
    RefreshEffect(s, now, access, r, outs);
    assert AgreesOn(s, now, r);
    if outs[..4] == [Done, Done, Done, Done] {
      assert forall i :: 0 <= i < 4 ==> outs[i] == outs[..4][i];
    }
  }

  // ---- Where agreement ends ----

  /** A revocation whose row is gone but whose cache entry was not deleted. */
  predicate CacheDeleteLost(s: Stores, r: Token, outs: seq<Outcome>)
    requires |outs| >= 3
  {
    r in s.rows && outs[0].Done? && (outs[1].Unacknowledged? || (outs[1].Done? && outs[2].Refused?))
  }

  lemma RevokeEffect(s: Stores, now: int, r: Token, outs: seq<Outcome>)
    requires |outs| >= 3
    ensures var (after, reply) := RunCall(s, now, RevokeFind(r), outs, 0);
            var found := outs[0] == Done && r in s.rows;
            && (if found && outs[1] != Refused then
                  && after.rows == (map q | q in s.rows && s.rows[q].id != s.rows[r].id :: s.rows[q])
                  && after.cache == (if CacheDeleteLost(s, r, outs) then s.cache else s.cache - {RefreshKey(r)})
                else after == s)
            && reply == (if found && outs[1] == Done then Revoked
                         else Rejected(if outs[0] == Done && r !in s.rows then NoSession else StoreFailure))
  {
    var run := RunCall(s, now, RevokeFind(r), outs, 0);
    if outs[0].Done? && r in s.rows {
      var id := s.rows[r].id;
      assert run == RunCall(s, now, RevokeDelete(id, r), outs, 1);
      if outs[1].Done? {
        assert run == RunCall(s.(rows := WithoutId(s.rows, id)), now, RevokeForget(r), outs, 2);
      }
    }
  }

  /** Session ids are unique, so a revocation without failing calls removes one session from both stores, and
      nothing else. */
  lemma RevokeRemovesOne(s: Stores, now: int, r: Token)
    requires UniqueIds(s.rows)
    ensures RunCall(s, now, RevokeFind(r), [Done, Done, Done], 0)
            == if r in s.rows then (Stores(s.rows - {r}, s.cache - {RefreshKey(r)}), Revoked)
               else (s, Rejected(NoSession))
  {
    RevokeEffect(s, now, r, [Done, Done, Done]);
    if r in s.rows {
      assert RunCall(s, now, RevokeFind(r), [Done, Done, Done], 0).0.rows == s.rows - {r};
    }
  }

  /** RevokeAll removes the user's rows and no others, and leaves the cache alone. */
  lemma RevokeAllEffect(s: Stores, now: int, user: User, outs: seq<Outcome>)
    requires |outs| >= 1
    ensures var (after, reply) := RunCall(s, now, RevokeAllDelete(user), outs, 0);
            && after.cache == s.cache && reply == (if outs[0] == Done then Revoked else Rejected(StoreFailure))
            && (outs[0] == Refused ==> after.rows == s.rows)
            && (outs[0] != Refused ==> forall r ::
                  && (r in after.rows <==> r in s.rows && s.rows[r].user != user)
                  && (r in after.rows ==> after.rows[r] == s.rows[r]))
  {
  }

  /** Revoke keeps the agreement unless the cache delete is lost while the entry is live. */
  lemma RevokeAgreesIff(s: Stores, now: int, r: Token, outs: seq<Outcome>)
    requires Agrees(s, now) && UniqueIds(s.rows) && |outs| >= 3
    ensures Agrees(RunCall(s, now, RevokeFind(r), outs, 0).0, now)
            <==> !(CacheDeleteLost(s, r, outs) && Live(s.cache, RefreshKey(r), now).Some?)
  {
    var after := RunCall(s, now, RevokeFind(r), outs, 0).0;
    RevokeEffect(s, now, r, outs);
    if CacheDeleteLost(s, r, outs) && Live(s.cache, RefreshKey(r), now).Some? {
      assert !AgreesOn(after, now, r);
    } else {
      forall q ensures AgreesOn(after, now, q) {
        assert AgreesOn(s, now, q);
      }
    }
  }

  /** RevokeAll leaves the cache alone: it keeps the agreement exactly when nothing was deleted or the
      user has no live cache entry. */
  lemma RevokeAllAgreesIff(s: Stores, now: int, user: User, outs: seq<Outcome>)
    requires Agrees(s, now) && |outs| >= 1
    ensures Agrees(RunCall(s, now, RevokeAllDelete(user), outs, 0).0, now)
            <==> outs[0].Refused? || forall r :: r in s.rows ==> Live(s.cache, RefreshKey(r), now) != Some(user)
  {
    var after := RunCall(s, now, RevokeAllDelete(user), outs, 0).0;
    if outs[0].Refused? || forall r :: r in s.rows ==> Live(s.cache, RefreshKey(r), now) != Some(user) {
      forall r ensures AgreesOn(after, now, r) {
        assert AgreesOn(s, now, r);
      }
    } else {
      var r :| r in s.rows && Live(s.cache, RefreshKey(r), now) == Some(user);
      assert AgreesOn(s, now, r);
      assert !AgreesOn(after, now, r);
    }
  }

  // ---- Runs ----

  /** Everything but RevokeAll and a lost cache delete. */
  predicate Transparent(s: Stores, e: Event) {
    e.Operate? ==>
      (!e.call.RevokeAllDelete? &&
       (e.call.RevokeFind? ==> |e.outs| >= 3 && !CacheDeleteLost(s, e.call.refresh, e.outs)))
  }

  predicate TransparentAt(trace: seq<Machine>, events: seq<Event>, n: nat)
    requires n < |events| < |trace|
  {
    Transparent(trace[n].stores, events[n])
  }

  lemma {:induction false} RunKeepsUniqueIds(s: Stores, now: int, call: Call, outs: seq<Outcome>, i: nat)
    requires UniqueIds(s.rows) && |outs| >= i + call.Left()
    ensures UniqueIds(RunCall(s, now, call, outs, i).0.rows)
    decreases call.Left()
  {
    var (s', progress) := StepCall(s, now, call, outs[i]);
    assert UniqueIds(s'.rows);
    if progress.Continue? {
      RunKeepsUniqueIds(s', now, progress.next, outs, i + 1);
    }
  }

  lemma TransparentEventAgrees(m: Machine, e: Event)
    requires Inv(m, 0) && m.flights == map[] && Possible(m, e) && Transparent(m.stores, e)
    requires Agrees(m.stores, m.now) && UniqueIds(m.stores.rows)
    ensures Agrees(AtomicNext(m, e).stores, AtomicNext(m, e).now) && UniqueIds(AtomicNext(m, e).stores.rows)
  {
    var s, s', now' := m.stores, AtomicNext(m, e).stores, AtomicNext(m, e).now;
    AtomicKeepsInv(m, e);
    if e.Operate? {
      RunKeepsUniqueIds(s, m.now, e.call, e.outs, 0);
      match e.call
      case CreateRow(_, _, _, _) => CreateAgrees(s, m.now, e.call, e.outs);
      case RefreshRead(access, refresh) => RefreshAgrees(s, m.now, access, refresh, e.outs);
      case RevokeFind(refresh) => RevokeAgreesIff(s, m.now, refresh, e.outs);
    } else {
      forall r ensures AgreesOn(s', now', r) {
        assert AgreesOn(s, m.now, r);
      }
    }
  }

  /** Cache transparency: over every run of uninterrupted operations with failing store calls, evictions
      and expiry, but no RevokeAll and no lost cache delete, the live refresh cache is contained in the
      table, so that each Refresh answers as RefreshIsTransparent says. */
  lemma {:induction false} CacheAgreesWithTable(trace: seq<Machine>, events: seq<Event>, n: nat)
    requires IsAtomicRun(trace, events) && n < |trace|
    requires forall k :: 0 <= k < |events| ==> TransparentAt(trace, events, k)
    ensures Agrees(trace[n].stores, trace[n].now) && UniqueIds(trace[n].stores.rows)
  {
    if n > 0 {
      CacheAgreesWithTable(trace, events, n - 1);
      AtomicInv(trace, events, n - 1);
      assert EventAt(trace, events, n - 1) && TransparentAt(trace, events, n - 1);
      TransparentEventAgrees(trace[n - 1], events[n - 1]);
    }
  }

  // ---- One session ----

  /** A pair that was issued, with nothing in between: the access token is valid for its user for exactly its
      lifetime; at any later instant, whether its cache entry has expired or not, a refresh renews; or a
      revocation succeeds, and a refresh right after it is rejected. SessionFinality has the run theorems. */
  lemma SessionLifecycle(s: Stores, now: int, later: int, call: Call, outs: seq<Outcome>, next: Token)
    requires call.CreateRow? && |outs| >= 3 && UniqueIds(s.rows) && now <= later
    requires RunCall(s, now, call, outs, 0).1 == Issued(call.access, call.refresh)
    ensures var done := [Done, Done, Done, Done];
            var after := RunCall(s, now, call, outs, 0).0;
            var renewed := RunCall(after, later, RefreshRead(next, call.refresh), done, 0);
            var revoked := RunCall(after, later, RevokeFind(call.refresh), done, 0);
            && (Live(after.cache, AccessKey(call.access), later)
                == if later < now + ACCESS_TOKEN_TTL then Some(call.user) else None)
            && renewed.1 == Renewed(next) && Live(renewed.0.cache, AccessKey(next), later) == Some(call.user)
            && revoked.1 == Revoked
            && RunCall(revoked.0, later, RefreshRead(next, call.refresh), done, 0).1 == Rejected(InvalidRefreshToken)
  {
    var done := [Done, Done, Done, Done];
    var after := RunCall(s, now, call, outs, 0).0;
    CreateEffect(s, now, call, outs);
    RefreshEffect(after, later, next, call.refresh, done);
    RevokeEffect(after, later, call.refresh, done);
    RefreshEffect(RunCall(after, later, RevokeFind(call.refresh), done, 0).0, later, next, call.refresh, done);
  }

  // ---- Interleavings ----

  /** An applied call that leaves a live cache entry without its row: it caches a token whose row is gone or
      another user's, or deletes the row of a token that is live in the cache. */
  predicate Unbacks(s: Stores, now: int, call: Call) {
    match call
    case CreateRefresh(user, _, r) => !(r in s.rows && s.rows[r].user == user)
    case RefreshFill(user, _, r) => !(r in s.rows && s.rows[r].user == user)
    case RevokeDelete(id, _) =>
      exists q :: q in s.rows && s.rows[q].id == id && Live(s.cache, RefreshKey(q), now).Some?
    case RevokeAllDelete(user) =>
      exists q :: q in s.rows && s.rows[q].user == user && Live(s.cache, RefreshKey(q), now).Some?
    case _ => false
  }

  predicate LosesAgreement(m: Machine, step: Step) {
    step.Advance? && step.id in m.flights && step.outcome.Applied() && Unbacks(m.stores, m.now, m.flights[step.id].call)
  }

  /** An unbacked token after a call that loses the agreement. */
  lemma CallLosesAgreement(s: Stores, now: int, call: Call, o: Outcome) returns (r: Token)
    requires Agrees(s, now) && o.Applied() && Unbacks(s, now, call)
    ensures !AgreesOn(StepCall(s, now, call, o).0, now, r)
  {
    match call
    case CreateRefresh(_, _, refresh) => r := refresh;
    case RefreshFill(_, _, refresh) => r := refresh;
    case RevokeDelete(id, _) =>
      r :| r in s.rows && s.rows[r].id == id && Live(s.cache, RefreshKey(r), now).Some?;
    case RevokeAllDelete(user) =>
      r :| r in s.rows && s.rows[r].user == user && Live(s.cache, RefreshKey(r), now).Some?;
  }

  lemma CallKeepsAgreement(s: Stores, now: int, call: Call, o: Outcome, r: Token)
    requires Agrees(s, now) && !(o.Applied() && Unbacks(s, now, call))
    ensures AgreesOn(StepCall(s, now, call, o).0, now, r)
  {
    assert AgreesOn(s, now, r);
  }

  /** Exactly when one step of any interleaving keeps the agreement. */
  lemma StepAgreesIff(m: Machine, step: Step)
    requires Agrees(m.stores, m.now) && Ready(m, step)
    ensures Agrees(Next(m, step).stores, Next(m, step).now) <==> !LosesAgreement(m, step)
  {
    var m' := Next(m, step);
    if LosesAgreement(m, step) {
      var r := CallLosesAgreement(m.stores, m.now, m.flights[step.id].call, step.outcome);
    } else {
      forall r ensures AgreesOn(m'.stores, m'.now, r) {
        assert AgreesOn(m.stores, m.now, r);
        if step.Advance? {
          CallKeepsAgreement(m.stores, m.now, m.flights[step.id].call, step.outcome, r);
        }
      }
    }
  }

  ghost predicate AgreesAt(trace: seq<Machine>, k: nat)
    requires k < |trace|
  {
    Agrees(trace[k].stores, trace[k].now)
  }

  predicate LosesAt(trace: seq<Machine>, steps: seq<Step>, k: nat)
    requires k < |steps| < |trace|
  {
    LosesAgreement(trace[k], steps[k])
  }

  /** Exactly when a run of any interleaving keeps the agreement throughout: none of its steps unbacks a live
      entry. */
  lemma {:induction false} RunAgreesIff(trace: seq<Machine>, steps: seq<Step>, n: nat)
    requires IsFreeRun(trace, steps) && n < |trace|
    ensures (forall k :: 0 <= k <= n ==> AgreesAt(trace, k)) <==> (forall k :: 0 <= k < n ==> !LosesAt(trace, steps, k))
  {
    if n == 0 {
      assert AgreesAt(trace, 0);
    } else {
      RunAgreesIff(trace, steps, n - 1);
      assert FreeStepAt(trace, steps, n - 1);
      if AgreesAt(trace, n - 1) {
        StepAgreesIff(trace[n - 1], steps[n - 1]);
        assert AgreesAt(trace, n) <==> !LosesAt(trace, steps, n - 1);
      }
    }
  }
}
