/** Every interleaving of session operations: any number of requests in flight, each making one store
    call per step, with failing calls, crashes, evictions and time passing between any two of them.

    `limit` is the longest time a request may be in flight. Every run meets one (SomeLimit), so results
    that do not mention it are about all runs. */
module SessionMachine {
  import opened Wrappers
  import opened SessionStores
  import opened SessionCalls

  /** A request in flight and the time it started. */
  datatype Flight = Flight(call: Call, since: int)

  /** Why an access entry was written: for the session of `refresh`, created or refreshed at `at`. */
  datatype Write = Write(user: User, at: int, refresh: Token)

  /** The stores, the requests, and the history the results speak about: the refresh tokens generated so
      far, the user each inserted row was bound to, when rows disappeared, and the latest write of each
      access entry. */
  datatype Machine = Machine(
    now: int,
    stores: Stores,
    flights: map<nat, Flight>,
    issued: set<Token>,
    bound: map<Token, User>,
    deletedAt: map<Token, int>,
    writes: map<Token, Write>)

  datatype Step =
    | Start(id: nat, first: Call)
    | Advance(id: nat, outcome: Outcome)
    | Crash(id: nat)
    | Evict(keys: set<Key>)
    | Tick(seconds: nat)

  const INITIAL := Machine(0, Stores(map[], map[]), map[], {}, map[], map[], map[])

  /** Steps the machine can take. Generated refresh tokens never repeat. */
  predicate Ready(m: Machine, step: Step) {
    match step
    case Start(id, first) =>
      id !in m.flights && first.First() && (first.CreateRow? ==> first.refresh !in m.issued)
    case Advance(id, _) => id in m.flights
    case Crash(id) => id in m.flights
    case Evict(_) => true
    case Tick(_) => true
  }

  /** ... if no request is in flight for longer than `limit`. */
  predicate Enabled(m: Machine, step: Step, limit: nat) {
    Ready(m, step) && (step.Advance? ==> m.now - m.flights[step.id].since <= limit)
  }

  function Recorded(writes: map<Token, Write>, now: int, call: Call, o: Outcome): map<Token, Write> {
    if (call.CreateAccess? || call.RefreshSet?) && o.Applied()
    then writes[call.access := Write(call.user, now, call.refresh)] else writes
  }

  /** One store call of a request, and its record in the history. */
  function AdvanceCall(m: Machine, id: nat, o: Outcome): Machine
    requires id in m.flights
  {
    var f := m.flights[id];
    var (stores, progress) := StepCall(m.stores, m.now, f.call, o);
    var inserted := map r | r in stores.rows && r !in m.stores.rows :: stores.rows[r].user;
    var deleted := map r | r in m.stores.rows && r !in stores.rows :: m.now;
    m.(stores := stores,
       flights := if progress.Continue? then m.flights[id := Flight(progress.next, f.since)] else m.flights - {id},
       bound := m.bound + inserted,
       deletedAt := m.deletedAt + deleted,
       writes := Recorded(m.writes, m.now, f.call, o))
  }

  /** A crash or a lost request is a request that makes no further step. */
  function Next(m: Machine, step: Step): Machine {
    match step
    case Start(id, first) =>
      m.(flights := m.flights[id := Flight(first, m.now)],
         issued := if first.CreateRow? then m.issued + {first.refresh} else m.issued)
    case Advance(id, o) => if id in m.flights then AdvanceCall(m, id, o) else m
    case Crash(id) => m.(flights := m.flights - {id})
    case Evict(keys) => m.(stores := m.stores.(cache := m.stores.cache - keys))
    case Tick(seconds) => m.(now := m.now + seconds)
  }

  predicate StepAt(trace: seq<Machine>, steps: seq<Step>, n: nat, limit: nat)
    requires n < |steps| < |trace|
  {
    Enabled(trace[n], steps[n], limit) && trace[n + 1] == Next(trace[n], steps[n])
  }

  /** `trace` lists the states the machine goes through on `steps`. */
  predicate IsRun(trace: seq<Machine>, steps: seq<Step>, limit: nat) {
    && |trace| == |steps| + 1 && trace[0] == INITIAL
    && forall n :: 0 <= n < |steps| ==> StepAt(trace, steps, n, limit)
  }

  predicate FreeStepAt(trace: seq<Machine>, steps: seq<Step>, n: nat)
    requires n < |steps| < |trace|
  {
    Ready(trace[n], steps[n]) && trace[n + 1] == Next(trace[n], steps[n])
  }

  /** The machine goes from trace[0] through the rest of `trace`, however long its requests take. */
  predicate IsPath(trace: seq<Machine>, steps: seq<Step>) {
    && |trace| == |steps| + 1
    && forall n :: 0 <= n < |steps| ==> FreeStepAt(trace, steps, n)
  }

  /** Any run. */
  predicate IsFreeRun(trace: seq<Machine>, steps: seq<Step>) {
    IsPath(trace, steps) && trace[0] == INITIAL
  }

  lemma {:induction false} LongestFlight(trace: seq<Machine>, steps: seq<Step>, n: nat) returns (limit: nat)
    requires IsFreeRun(trace, steps) && n <= |steps|
    ensures forall k :: 0 <= k < n ==> StepAt(trace, steps, k, limit)
  {
    limit := 0;
    if n > 0 {
      var before := LongestFlight(trace, steps, n - 1);
      var m, step := trace[n - 1], steps[n - 1];
      assert FreeStepAt(trace, steps, n - 1);
      limit := before;
      if step.Advance? && m.now - m.flights[step.id].since > before {
        limit := m.now - m.flights[step.id].since;
      }
      forall k | 0 <= k < n ensures StepAt(trace, steps, k, limit) {
        if k < n - 1 {
          assert StepAt(trace, steps, k, before);
        }
      }
    }
  }

  /** Every run meets some limit. */
  lemma SomeLimit(trace: seq<Machine>, steps: seq<Step>) returns (limit: nat)
    requires IsFreeRun(trace, steps)
    ensures IsRun(trace, steps, limit)
  {
    limit := LongestFlight(trace, steps, |steps|);
  }

  // ---- The invariant ----

  /** Rows are bound to their user and not recorded as deleted. */
  ghost predicate RowsOk(m: Machine) {
    forall r :: r in m.stores.rows ==>
      r in m.bound && m.bound[r] == m.stores.rows[r].user && r !in m.deletedAt
  }

  ghost predicate HistoryOk(m: Machine) {
    && (forall r :: r in m.bound ==> r in m.issued)
    && (forall r :: r in m.deletedAt ==> r in m.bound && m.deletedAt[r] <= m.now)
  }

  /** The user a token was bound to; and if its row is gone, `at` is at most `slack` after that. */
  ghost predicate BoundUntil(m: Machine, r: Token, user: User, at: int, slack: int) {
    && r in m.bound && m.bound[r] == user
    && (r in m.deletedAt ==> at <= m.deletedAt[r] + slack)
  }

  ghost predicate RefreshEntryOk(m: Machine, r: Token, limit: nat) {
    RefreshKey(r) in m.stores.cache ==>
      var e := m.stores.cache[RefreshKey(r)];
      e.expiresAt <= m.now + REFRESH_TOKEN_TTL && BoundUntil(m, r, e.user, e.expiresAt, limit + REFRESH_TOKEN_TTL)
  }

  ghost predicate AccessEntryOk(m: Machine, a: Token, limit: nat) {
    AccessKey(a) in m.stores.cache ==>
      && a in m.writes
      && var e, w := m.stores.cache[AccessKey(a)], m.writes[a];
      && e == Entry(w.user, w.at + ACCESS_TOKEN_TTL) && w.at <= m.now
      && BoundUntil(m, w.refresh, w.user, w.at, 2 * limit + REFRESH_TOKEN_TTL - 1)
  }

  ghost predicate FlightOk(m: Machine, f: Flight, limit: nat) {
    && f.since <= m.now
    && match f.call
       case CreateRow(_, _, _, r) => r in m.issued && r !in m.bound
       case CreateAccess(user, _, r) => BoundUntil(m, r, user, f.since, 0)
       case CreateRefresh(user, _, r) => BoundUntil(m, r, user, f.since, 0)
       case RefreshFill(user, _, r) => BoundUntil(m, r, user, f.since, 0)
       case RefreshSet(user, _, r) => BoundUntil(m, r, user, f.since, limit + REFRESH_TOKEN_TTL - 1)
       case _ => true
  }

  /** No two creations carry the same refresh token. */
  ghost predicate CreationsDistinct(m: Machine) {
    forall i, j :: i in m.flights && j in m.flights && i != j ==>
      var (c, d) := (m.flights[i].call, m.flights[j].call);
      c.CreateRow? && d.CreateRow? ==> c.refresh != d.refresh
  }

  ghost predicate Inv(m: Machine, limit: nat) {
    && RowsOk(m) && HistoryOk(m) && CreationsDistinct(m)
    && (forall r :: RefreshEntryOk(m, r, limit))
    && (forall a :: AccessEntryOk(m, a, limit))
    && (forall id :: id in m.flights ==> FlightOk(m, m.flights[id], limit))
  }

  lemma InitiallyInv(limit: nat)
    ensures Inv(INITIAL, limit)
  {
  }

  lemma StartKeepsInv(m: Machine, id: nat, first: Call, limit: nat)
    requires Inv(m, limit) && Enabled(m, Start(id, first), limit)
    ensures Inv(Next(m, Start(id, first)), limit)
  {
    var m' := Next(m, Start(id, first));
    forall r ensures RefreshEntryOk(m', r, limit) {
      assert RefreshEntryOk(m, r, limit);
    }
    forall a ensures AccessEntryOk(m', a, limit) {
      assert AccessEntryOk(m, a, limit);
    }
    forall j | j in m'.flights ensures FlightOk(m', m'.flights[j], limit) {
      assert j != id ==> FlightOk(m, m.flights[j], limit);
    }
  }

  lemma OtherStepsKeepInv(m: Machine, step: Step, limit: nat)
    requires Inv(m, limit) && (step.Crash? || step.Evict? || step.Tick?)
    ensures Inv(Next(m, step), limit)
  {
    var m' := Next(m, step);
    forall r ensures RefreshEntryOk(m', r, limit) {
      assert RefreshEntryOk(m, r, limit);
    }
    forall a ensures AccessEntryOk(m', a, limit) {
      assert AccessEntryOk(m, a, limit);
    }
    forall j | j in m'.flights ensures FlightOk(m', m'.flights[j], limit) {
      assert FlightOk(m, m.flights[j], limit);
    }
  }

  /** A step binds only the fresh token of a creation, and records a deletion only of a present row. */
  lemma AdvanceKeepsBound(m: Machine, id: nat, o: Outcome, limit: nat, r: Token, user: User, at: int, slack: int)
    requires Inv(m, limit) && id in m.flights
    requires BoundUntil(m, r, user, at, slack) && at <= m.now + slack
    ensures BoundUntil(AdvanceCall(m, id, o), r, user, at, slack)
  {
    assert FlightOk(m, m.flights[id], limit);
  }

  lemma AdvanceKeepsTable(m: Machine, id: nat, o: Outcome, limit: nat)
    requires Inv(m, limit) && id in m.flights
    ensures var m' := AdvanceCall(m, id, o); RowsOk(m') && HistoryOk(m') && CreationsDistinct(m')
  {
    assert FlightOk(m, m.flights[id], limit);
  }

  lemma AdvanceKeepsRefreshEntry(m: Machine, id: nat, o: Outcome, limit: nat, r: Token)
    requires Inv(m, limit) && Enabled(m, Advance(id, o), limit)
    ensures RefreshEntryOk(AdvanceCall(m, id, o), r, limit)
  {
    var f, m', key := m.flights[id], AdvanceCall(m, id, o), RefreshKey(r);
    assert FlightOk(m, f, limit) && RefreshEntryOk(m, r, limit);
    if key in m'.stores.cache {
      var e := m'.stores.cache[key];
      if key in m.stores.cache && m.stores.cache[key] == e {
        AdvanceKeepsBound(m, id, o, limit, r, e.user, e.expiresAt, limit + REFRESH_TOKEN_TTL);
      } else {
        AdvanceKeepsBound(m, id, o, limit, r, e.user, f.since, 0);
      }
    }
  }

  lemma AdvanceKeepsAccessEntry(m: Machine, id: nat, o: Outcome, limit: nat, a: Token)
    requires Inv(m, limit) && Enabled(m, Advance(id, o), limit)
    ensures AccessEntryOk(AdvanceCall(m, id, o), a, limit)
  {
    var f, m' := m.flights[id], AdvanceCall(m, id, o);
    assert FlightOk(m, f, limit) && AccessEntryOk(m, a, limit);
    if AccessKey(a) in m'.stores.cache {
      var w := m'.writes[a];
      if (f.call.CreateAccess? || f.call.RefreshSet?) && f.call.access == a && o.Applied() {
        AdvanceKeepsBound(m, id, o, limit, w.refresh, w.user, f.since, limit + REFRESH_TOKEN_TTL - 1);
      } else {
        assert AccessKey(a) in m.stores.cache && w == m.writes[a];
        AdvanceKeepsBound(m, id, o, limit, w.refresh, w.user, w.at, 2 * limit + REFRESH_TOKEN_TTL - 1);
      }
    }
  }

  lemma OtherCreationStaysFresh(m: Machine, id: nat, o: Outcome, limit: nat, j: nat)
    requires Inv(m, limit) && id in m.flights && j in m.flights && j != id && m.flights[j].call.CreateRow?
    ensures FlightOk(AdvanceCall(m, id, o), m.flights[j], limit)
  {
    assert FlightOk(m, m.flights[id], limit) && FlightOk(m, m.flights[j], limit);
  }

  lemma AdvanceKeepsOtherFlight(m: Machine, id: nat, o: Outcome, limit: nat, j: nat)
    requires Inv(m, limit) && id in m.flights && j in m.flights && j != id
    ensures FlightOk(AdvanceCall(m, id, o), m.flights[j], limit)
  {
    var f := m.flights[j];
    assert FlightOk(m, f, limit);
    match f.call
    case CreateRow(_, _, _, r) => OtherCreationStaysFresh(m, id, o, limit, j);
    case CreateAccess(user, _, r) => AdvanceKeepsBound(m, id, o, limit, r, user, f.since, 0);
    case CreateRefresh(user, _, r) => AdvanceKeepsBound(m, id, o, limit, r, user, f.since, 0);
    case RefreshFill(user, _, r) => AdvanceKeepsBound(m, id, o, limit, r, user, f.since, 0);
    case RefreshSet(user, _, r) => AdvanceKeepsBound(m, id, o, limit, r, user, f.since, limit + REFRESH_TOKEN_TTL - 1);
    case _ =>
  }

  lemma AdvanceKeepsOwnFlight(m: Machine, id: nat, o: Outcome, limit: nat)
    requires Inv(m, limit) && id in m.flights && id in AdvanceCall(m, id, o).flights
    ensures FlightOk(AdvanceCall(m, id, o), AdvanceCall(m, id, o).flights[id], limit)
  {
    var m' := AdvanceCall(m, id, o);
    var f := m.flights[id];
    assert FlightOk(m, f, limit);
    match f.call
    case CreateAccess(user, _, r) => AdvanceKeepsBound(m, id, o, limit, r, user, f.since, 0);
    case RefreshFill(user, _, r) => AdvanceKeepsBound(m, id, o, limit, r, user, f.since, 0);
    case RefreshRead(_, r) => assert RefreshEntryOk(m, r, limit);
    case _ =>
  }

  lemma AdvanceKeepsInv(m: Machine, id: nat, o: Outcome, limit: nat)
    requires Inv(m, limit) && Enabled(m, Advance(id, o), limit)
    ensures Inv(AdvanceCall(m, id, o), limit)
  {
    var m' := AdvanceCall(m, id, o);
    AdvanceKeepsTable(m, id, o, limit);
    forall r ensures RefreshEntryOk(m', r, limit) {
      AdvanceKeepsRefreshEntry(m, id, o, limit, r);
    }
    forall a ensures AccessEntryOk(m', a, limit) {
      AdvanceKeepsAccessEntry(m, id, o, limit, a);
    }
    forall j | j in m'.flights ensures FlightOk(m', m'.flights[j], limit) {
      if j == id {
        AdvanceKeepsOwnFlight(m, id, o, limit);
      } else {
        AdvanceKeepsOtherFlight(m, id, o, limit, j);
      }
    }
  }

  lemma {:induction false} EveryStateInv(trace: seq<Machine>, steps: seq<Step>, n: nat, limit: nat)
    requires IsRun(trace, steps, limit) && n < |trace|
    ensures Inv(trace[n], limit)
  {
    if n == 0 {
      InitiallyInv(limit);
    } else {
      EveryStateInv(trace, steps, n - 1, limit);
      assert StepAt(trace, steps, n - 1, limit);
      NextKeepsInv(trace[n - 1], steps[n - 1], limit);
    }
  }

  lemma NextKeepsInv(m: Machine, step: Step, limit: nat)
    requires Inv(m, limit) && Enabled(m, step, limit)
    ensures Inv(Next(m, step), limit)
  {
    if step.Advance? {
      AdvanceKeepsInv(m, step.id, step.outcome, limit);
    } else if step.Start? {
      StartKeepsInv(m, step.id, step.first, limit);
    } else {
      OtherStepsKeepInv(m, step, limit);
    }
  }
}
