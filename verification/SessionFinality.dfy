/** When a session works, and when its end is final, in every run of every interleaving. */
module SessionFinality {
  import opened Wrappers
  import opened SessionStores
  import opened SessionCalls
  import opened SessionMachine
  import opened SessionResults
  import opened SessionAtomic
  import opened SessionCache

  const ALL_DONE: seq<Outcome> := [Done, Done, Done, Done]

  /** A refresh with `r` whose store calls all succeed, at the time of state `m`. */
  function RefreshNow(m: Machine, access: Token, r: Token): (Stores, Reply) {
    RunCall(m.stores, m.now, RefreshRead(access, r), ALL_DONE, 0)
  }

  // ---- A session begins ----

  /** Every row's token was generated in the run. */
  lemma RowsWereIssued(trace: seq<Machine>, steps: seq<Step>, n: nat, r: Token)
    requires IsFreeRun(trace, steps) && n < |trace| && r in trace[n].stores.rows
    ensures r in trace[n].issued
  {
    var limit := SomeLimit(trace, steps);
    EveryStateInv(trace, steps, n, limit);
  }

  /** In every state of every interleaving, a request that creates a session with a new token and a new id, and
      whose calls succeed, issues it, however many sessions there are: the stores it leaves are those of
      CreationSucceedsIff, and the token can be refreshed at once. */
  lemma CreationSucceeds(trace: seq<Machine>, steps: seq<Step>, n: nat, req: nat,
                         id: SessionId, user: User, access: Token, r: Token, next: Token)
    requires IsFreeRun(trace, steps) && n < |trace| && req !in trace[n].flights && r !in trace[n].issued
    requires forall q :: q in trace[n].stores.rows ==> trace[n].stores.rows[q].id != id
    ensures var first := CreateRow(id, user, access, r);
            var m := Burst(Next(trace[n], Start(req, first)), req, [Done, Done, Done], 0);
            && RunCall(trace[n].stores, trace[n].now, first, [Done, Done, Done], 0) == (m.stores, Issued(access, r))
            && m.flights == trace[n].flights && m.now == trace[n].now
            && m.stores.rows == trace[n].stores.rows[r := Session(id, user)]
            && Live(m.stores.cache, AccessKey(access), m.now) == Some(user)
            && RefreshNow(m, next, r).1 == Renewed(next)
  {
    var m, first := trace[n], CreateRow(id, user, access, r);
    if r in m.stores.rows {
      RowsWereIssued(trace, steps, n, r);
    }
    CreationSucceedsIff(m.stores, m.now, id, user, access, r);
    BurstIsRunCall(Next(m, Start(req, first)), req, [Done, Done, Done], 0);
    LiveIsAccepted(Burst(Next(m, Start(req, first)), req, [Done, Done, Done], 0), r, next);
  }

  // ---- A session works until its row is deleted ----

  lemma RowUnchanged(m: Machine, step: Step, r: Token)
    requires Ready(m, step) && r in m.stores.rows && r in Next(m, step).stores.rows
    ensures Next(m, step).stores.rows[r] == m.stores.rows[r]
  {
  }

  lemma {:induction false} RowSurvives(trace: seq<Machine>, steps: seq<Step>, k: nat, n: nat, r: Token, user: User)
    requires IsFreeRun(trace, steps) && k <= n < |trace| && HadRow(trace, k, r, user)
    requires forall j :: k <= j < n ==> !DeletedBy(trace, j, r)
    ensures HadRow(trace, n, r, user)
  {
    if k < n {
      RowSurvives(trace, steps, k, n - 1, r, user);
      assert FreeStepAt(trace, steps, n - 1) && !DeletedBy(trace, n - 1, r);
      RowUnchanged(trace[n - 1], steps[n - 1], r);
    }
  }

  /** A session renews until it is deleted: whatever other requests, failing calls, crashes, evictions and
      expiry happened since its row was there, as long as no step deleted the row, a refresh with its token
      answers with an access token that is live for the session's user. */
  lemma RenewsUntilDeleted(trace: seq<Machine>, steps: seq<Step>, k: nat, n: nat, r: Token, user: User, access: Token)
    requires IsFreeRun(trace, steps) && k <= n < |trace| && HadRow(trace, k, r, user)
    requires forall j :: k <= j < n ==> !DeletedBy(trace, j, r)
    ensures var (after, reply) := RefreshNow(trace[n], access, r);
            reply == Renewed(access) && Live(after.cache, AccessKey(access), trace[n].now) == Some(user)
  {
    var m := trace[n];
    RowSurvives(trace, steps, k, n, r, user);
    var limit := SomeLimit(trace, steps);
    EveryStateInv(trace, steps, n, limit);
    assert RefreshEntryOk(m, r, limit);
    RefreshEffect(m.stores, m.now, access, r, ALL_DONE);
  }

  // ---- The end of a session ----

  /** The call will still insert `r`, or put it into the cache. */
  predicate StillWrites(call: Call, r: Token) {
    (call.CreateRow? || call.CreateAccess? || call.CreateRefresh? || call.RefreshFill?) && call.refresh == r
  }

  /** `r` was used once, no lookup finds it, and no request in flight will bring it back. */
  predicate Final(m: Machine, r: Token) {
    && r in m.issued && r !in m.stores.rows && Live(m.stores.cache, RefreshKey(r), m.now).None?
    && forall id :: id in m.flights ==> !StillWrites(m.flights[id].call, r)
  }

  lemma FinalStays(m: Machine, step: Step, r: Token)
    requires Ready(m, step) && Final(m, r)
    ensures Final(Next(m, step), r)
  {
  }

  lemma {:induction false} FinalForever(trace: seq<Machine>, steps: seq<Step>, k: nat, n: nat, r: Token)
    requires IsPath(trace, steps) && k <= n < |trace| && Final(trace[k], r)
    ensures Final(trace[n], r)
  {
    if k < n {
      FinalForever(trace, steps, k, n - 1, r);
      assert FreeStepAt(trace, steps, n - 1);
      FinalStays(trace[n - 1], steps[n - 1], r);
    }
  }

  /** From a final state on, in every interleaving, the token is invalid. */
  lemma FinalIsInvalid(trace: seq<Machine>, steps: seq<Step>, k: nat, n: nat, r: Token, access: Token)
    requires IsPath(trace, steps) && k <= n < |trace| && Final(trace[k], r)
    ensures RefreshNow(trace[n], access, r) == (trace[n].stores, Rejected(InvalidRefreshToken))
  {
    FinalForever(trace, steps, k, n, r);
    RefreshEffect(trace[n].stores, trace[n].now, access, r, ALL_DONE);
  }

  /** A refresh with `r` in state n is refused as invalid. */
  predicate Refuses(trace: seq<Machine>, n: nat, r: Token, access: Token)
    requires n < |trace|
  {
    RefreshNow(trace[n], access, r).1 == Rejected(InvalidRefreshToken)
  }

  /** No continuation of state `m` ever accepts `r` again. */
  ghost predicate NeverAccepted(m: Machine, r: Token) {
    forall trace: seq<Machine>, steps: seq<Step>, n: nat, access: Token ::
      IsPath(trace, steps) && trace[0] == m && n < |trace| ==> Refuses(trace, n, r, access)
  }

  /** Deleting a session is final, in the sense that its token is never accepted again, exactly when it is not
      live in the cache and no creation or refresh that observed its row is still to write it. */
  lemma DeletionIsFinalIff(trace: seq<Machine>, steps: seq<Step>, k: nat, n: nat, r: Token)
    requires IsFreeRun(trace, steps) && k < n < |trace| && DeletedBy(trace, k, r)
    ensures NeverAccepted(trace[n], r) <==> Final(trace[n], r)
  {
    var m := trace[n];
    DeletedIsOut(trace, steps, k, n, r);
    if Final(m, r) {
      forall path: seq<Machine>, more: seq<Step>, i: nat, access: Token
        | IsPath(path, more) && path[0] == m && i < |path|
        ensures Refuses(path, i, r, access)
      {
        FinalIsInvalid(path, more, 0, i, r, access);
      }
    } else {
      var path, more := ComesBack(m, r);
      LiveIsAccepted(path[|more|], r, "");
      assert !Refuses(path, |more|, r, "");
    }
  }

  /** For the client, in every interleaving: once its cache lifetime and the longest request have passed since
      its row was deleted, a token is refused. */
  lemma RefusedInTime(trace: seq<Machine>, steps: seq<Step>, k: nat, n: nat, limit: nat, r: Token, access: Token)
    requires IsRun(trace, steps, limit) && k < n < |trace| && DeletedBy(trace, k, r)
    requires trace[n].now >= trace[k].now + limit + REFRESH_TOKEN_TTL
    ensures Refuses(trace, n, r, access)
  {
    BoundedStaleness(trace, steps, k, n, limit, r);
    RefreshEffect(trace[n].stores, trace[n].now, access, r, ALL_DONE);
  }

  lemma LiveIsAccepted(m: Machine, r: Token, access: Token)
    requires Live(m.stores.cache, RefreshKey(r), m.now).Some?
    ensures RefreshNow(m, access, r).1 == Renewed(access)
  {
    RefreshEffect(m.stores, m.now, access, r, ALL_DONE);
  }

  lemma DeletedIsOut(trace: seq<Machine>, steps: seq<Step>, k: nat, n: nat, r: Token)
    requires IsFreeRun(trace, steps) && k < n < |trace| && DeletedBy(trace, k, r)
    ensures r in trace[n].issued && r !in trace[n].stores.rows
    ensures forall id :: id in trace[n].flights && trace[n].flights[id].call.CreateRow? ==>
              trace[n].flights[id].call.refresh != r
  {
    var limit := SomeLimit(trace, steps);
    DeletionIsRecorded(trace, steps, k, limit, r);
    EveryStateInv(trace, steps, k + 1, limit);
    HistoryPersists(trace, steps, k + 1, n, limit, r);
    EveryStateInv(trace, steps, n, limit);
    forall id | id in trace[n].flights && trace[n].flights[id].call.CreateRow?
      ensures trace[n].flights[id].call.refresh != r
    {
      assert FlightOk(trace[n], trace[n].flights[id], limit);
    }
  }

  /** A token that is not live, but that a request which observed its row will write, is live within two steps
      of that request. */
  lemma ComesBack(m: Machine, r: Token) returns (path: seq<Machine>, more: seq<Step>)
    requires r in m.issued && r !in m.stores.rows && !Final(m, r)
    requires forall id :: id in m.flights && m.flights[id].call.CreateRow? ==> m.flights[id].call.refresh != r
    ensures IsPath(path, more) && path[0] == m
    ensures Live(path[|more|].stores.cache, RefreshKey(r), path[|more|].now).Some?
  {
    if Live(m.stores.cache, RefreshKey(r), m.now).Some? {
      return [m], [];
    }
    var id :| id in m.flights && StillWrites(m.flights[id].call, r);
    var m1 := Next(m, Advance(id, Done));
    if m.flights[id].call.CreateAccess? {
      path, more := [m, m1, Next(m1, Advance(id, Done))], [Advance(id, Done), Advance(id, Done)];
      assert FreeStepAt(path, more, 0) && FreeStepAt(path, more, 1);
    } else {
      path, more := [m, m1], [Advance(id, Done)];
      assert FreeStepAt(path, more, 0);
    }
  }

  // ---- Stranded tokens ----

  predicate Forgets(f: Flight, r: Token) {
    f.call == RevokeForget(r)
  }

  /** No request other than `id` is about to delete the cache entry of `r`. */
  predicate NoOtherForgets(m: Machine, id: nat, r: Token) {
    forall j :: j in m.flights && j != id ==> !Forgets(m.flights[j], r)
  }

  /** A token that still works without its row, and that no revocation is about to delete from the cache. */
  predicate Stranded(m: Machine, r: Token) {
    && r !in m.stores.rows && Live(m.stores.cache, RefreshKey(r), m.now).Some?
    && forall j :: j in m.flights ==> !Forgets(m.flights[j], r)
  }

  /** What strands a token: RevokeAll, the delete of its row whose acknowledgement was lost or that another
      token's revocation made, the cache delete of its revocation refused or never made, or the late write of a
      creation or refresh. */
  predicate Strands(m: Machine, step: Step, r: Token) {
    var live := Live(m.stores.cache, RefreshKey(r), m.now).Some?;
    var rows := m.stores.rows;
    match step
    case Advance(id, o) =>
      && id in m.flights && NoOtherForgets(m, id, r)
      && (match m.flights[id].call
          case RevokeAllDelete(user) => live && o.Applied() && r in rows && rows[r].user == user
          case RevokeDelete(session, q) =>
            live && o.Applied() && r in rows && rows[r].id == session && (o.Unacknowledged? || q != r)
          case RevokeForget(q) => live && q == r && o.Refused? && r !in rows
          case CreateRefresh(_, _, q) => q == r && o.Applied() && r !in rows
          case RefreshFill(_, _, q) => q == r && o.Applied() && r !in rows
          case _ => false)
    case Crash(id) => live && id in m.flights && Forgets(m.flights[id], r) && NoOtherForgets(m, id, r) && r !in rows
    case _ => false
  }

  /** A step leaves the other requests alone. */
  lemma OtherForgetsStay(m: Machine, step: Step, j: nat, r: Token)
    requires Ready(m, step) && j in m.flights && Forgets(m.flights[j], r)
    requires step.Advance? || step.Crash? ==> j != step.id
    ensures !Stranded(Next(m, step), r)
  {
    assert j in Next(m, step).flights && Next(m, step).flights[j] == m.flights[j];
  }

  /** Exactly which steps of any interleaving strand a token. */
  lemma StepStrandsIff(m: Machine, step: Step, r: Token)
    requires Ready(m, step) && !Stranded(m, r)
    ensures Stranded(Next(m, step), r) <==> Strands(m, step, r)
  {
    var m' := Next(m, step);
    if j :| j in m.flights && Forgets(m.flights[j], r) && (step.Advance? || step.Crash? ==> j != step.id) {
      OtherForgetsStay(m, step, j, r);
    } else if step.Advance? && step.id in m'.flights {
      assert Stranded(m', r) ==> !Forgets(m'.flights[step.id], r);
    }
  }

  predicate StrandsAt(trace: seq<Machine>, steps: seq<Step>, k: nat, r: Token)
    requires k < |steps| < |trace|
  {
    Strands(trace[k], steps[k], r)
  }

  /** Every stranded token was stranded by such a step, and has been since: a successful revocation, between its
      two deletes, strands nothing. */
  lemma {:induction false} StrandedHasCause(trace: seq<Machine>, steps: seq<Step>, n: nat, r: Token) returns (k: nat)
    requires IsFreeRun(trace, steps) && n < |trace| && Stranded(trace[n], r)
    ensures k < n && StrandsAt(trace, steps, k, r) && forall j :: k < j <= n ==> Stranded(trace[j], r)
  {
    assert n > 0 && FreeStepAt(trace, steps, n - 1);
    if Stranded(trace[n - 1], r) {
      k := StrandedHasCause(trace, steps, n - 1, r);
    } else {
      StepStrandsIff(trace[n - 1], steps[n - 1], r);
      k := n - 1;
    }
  }
}
