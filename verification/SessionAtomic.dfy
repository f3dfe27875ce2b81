/** Runs in which every operation is uninterrupted: the service methods one after another. */
module SessionAtomic {
  import opened Wrappers
  import opened SessionStores
  import opened SessionCalls
  import opened SessionMachine
  import opened SessionResults

  datatype Event =
    | Operate(call: Call, outs: seq<Outcome>)
    | Expel(keys: set<Key>)
    | Wait(seconds: nat)

  /** All remaining store calls of one request in a row. */
  function Burst(m: Machine, id: nat, outs: seq<Outcome>, i: nat): Machine
    requires i <= |outs|
    decreases |outs| - i
  {
    if id in m.flights && i < |outs| then Burst(AdvanceCall(m, id, outs[i]), id, outs, i + 1) else m
  }

  function AtomicNext(m: Machine, e: Event): Machine {
    match e
    case Operate(call, outs) => Burst(Next(m, Start(0, call)), 0, outs, 0)
    case Expel(keys) => Next(m, Evict(keys))
    case Wait(seconds) => Next(m, Tick(seconds))
  }

  /** Operations start with their first call, and generated refresh tokens never repeat. */
  predicate Possible(m: Machine, e: Event) {
    e.Operate? ==> |e.outs| >= e.call.Left() && Enabled(m, Start(0, e.call), 0)
  }

  predicate EventAt(trace: seq<Machine>, events: seq<Event>, n: nat)
    requires n < |events| < |trace|
  {
    Possible(trace[n], events[n]) && trace[n + 1] == AtomicNext(trace[n], events[n])
  }

  predicate IsAtomicRun(trace: seq<Machine>, events: seq<Event>) {
    && |trace| == |events| + 1 && trace[0] == INITIAL
    && forall n :: 0 <= n < |events| ==> EventAt(trace, events, n)
  }

  /** The machine, run without interruption, does what the service methods do. */
  lemma {:induction false} BurstIsRunCall(m: Machine, id: nat, outs: seq<Outcome>, i: nat)
    requires id in m.flights && i <= |outs| && |outs| - i >= m.flights[id].call.Left()
    ensures var m' := Burst(m, id, outs, i);
            && m'.stores == RunCall(m.stores, m.now, m.flights[id].call, outs, i).0
            && m'.flights == m.flights - {id} && m'.now == m.now
    decreases |outs| - i
  {
    var m' := AdvanceCall(m, id, outs[i]);
    if id in m'.flights {
      BurstIsRunCall(m', id, outs, i + 1);
    } else {
      assert Burst(m', id, outs, i + 1) == m';
    }
  }

  /** What a burst keeps: the invariant, even for requests that take no time, and the history. */
  lemma {:induction false} BurstKeepsInv(m: Machine, id: nat, outs: seq<Outcome>, i: nat)
    requires Inv(m, 0) && i <= |outs| && (id in m.flights ==> m.flights[id].since == m.now)
    ensures Inv(Burst(m, id, outs, i), 0)
    ensures forall r :: r in m.deletedAt ==>
              r in Burst(m, id, outs, i).deletedAt && Burst(m, id, outs, i).deletedAt[r] == m.deletedAt[r]
    decreases |outs| - i
  {
    if id in m.flights && i < |outs| {
      AdvanceKeepsInv(m, id, outs[i], 0);
      forall r | r in m.deletedAt
        ensures r in AdvanceCall(m, id, outs[i]).deletedAt && AdvanceCall(m, id, outs[i]).deletedAt[r] == m.deletedAt[r]
      {
        NextKeepsHistory(m, Advance(id, outs[i]), 0, r);
      }
      BurstKeepsInv(AdvanceCall(m, id, outs[i]), id, outs, i + 1);
    }
  }

  lemma AtomicKeepsInv(m: Machine, e: Event)
    requires Inv(m, 0) && m.flights == map[] && Possible(m, e)
    ensures Inv(AtomicNext(m, e), 0) && AtomicNext(m, e).flights == map[]
    ensures AtomicNext(m, e).now == m.now + if e.Wait? then e.seconds else 0
    ensures e.Operate? ==> AtomicNext(m, e).stores == RunCall(m.stores, m.now, e.call, e.outs, 0).0
    ensures forall r :: r in m.deletedAt ==>
              r in AtomicNext(m, e).deletedAt && AtomicNext(m, e).deletedAt[r] == m.deletedAt[r]
  {
    match e
    case Operate(call, outs) =>
      NextKeepsInv(m, Start(0, call), 0);
      BurstKeepsInv(Next(m, Start(0, call)), 0, outs, 0);
      BurstIsRunCall(Next(m, Start(0, call)), 0, outs, 0);
    case Expel(keys) => NextKeepsInv(m, Evict(keys), 0);
    case Wait(seconds) => NextKeepsInv(m, Tick(seconds), 0);
  }

  lemma {:induction false} AtomicInv(trace: seq<Machine>, events: seq<Event>, n: nat)
    requires IsAtomicRun(trace, events) && n < |trace|
    ensures Inv(trace[n], 0) && trace[n].flights == map[]
  {
    if n == 0 {
      InitiallyInv(0);
    } else {
      AtomicInv(trace, events, n - 1);
      assert EventAt(trace, events, n - 1);
      AtomicKeepsInv(trace[n - 1], events[n - 1]);
    }
  }

  lemma {:induction false} DeletionPersists(trace: seq<Machine>, events: seq<Event>, k: nat, n: nat, r: Token)
    requires IsAtomicRun(trace, events) && k <= n < |trace| && r in trace[k].deletedAt
    ensures r in trace[n].deletedAt && trace[n].deletedAt[r] == trace[k].deletedAt[r]
  {
    if k < n {
      DeletionPersists(trace, events, k, n - 1, r);
      AtomicInv(trace, events, n - 1);
      assert EventAt(trace, events, n - 1);
      AtomicKeepsInv(trace[n - 1], events[n - 1]);
    }
  }

  /** A row that disappears is recorded with the time of the event. */
  lemma {:induction false} BurstRecordsDeletion(m: Machine, id: nat, outs: seq<Outcome>, i: nat, r: Token)
    requires Inv(m, 0) && i <= |outs| && (id in m.flights ==> m.flights[id].since == m.now)
    requires r in m.stores.rows && r !in Burst(m, id, outs, i).stores.rows
    ensures r in Burst(m, id, outs, i).deletedAt && Burst(m, id, outs, i).deletedAt[r] == m.now
    decreases |outs| - i
  {
    var m' := AdvanceCall(m, id, outs[i]);
    AdvanceKeepsInv(m, id, outs[i], 0);
    if r in m'.stores.rows {
      BurstRecordsDeletion(m', id, outs, i + 1, r);
    } else {
      BurstKeepsInv(m', id, outs, i + 1);
    }
  }

  /** A refresh with a token that is in neither store is turned away, however its store calls end. */
  lemma UnknownIsRejected(s: Stores, now: int, access: Token, refresh: Token, outs: seq<Outcome>)
    requires |outs| >= 4 && refresh !in s.rows && Live(s.cache, RefreshKey(refresh), now).None?
    ensures RunCall(s, now, RefreshRead(access, refresh), outs, 0).0 == s
    ensures RunCall(s, now, RefreshRead(access, refresh), outs, 0).1.Rejected?
  {
    assert RunCall(s, now, RefreshRead(access, refresh), outs, 0)
        == RunCall(s, now, RefreshQuery(access, refresh), outs, 1);
  }

  lemma AtomicDeletion(trace: seq<Machine>, events: seq<Event>, k: nat, r: Token)
    requires IsAtomicRun(trace, events) && k < |events| && DeletedBy(trace, k, r)
    ensures r in trace[k + 1].deletedAt && trace[k + 1].deletedAt[r] == trace[k].now
  {
    var m, e := trace[k], events[k];
    AtomicInv(trace, events, k);
    assert EventAt(trace, events, k);
    assert e.Operate?;
    NextKeepsInv(m, Start(0, e.call), 0);
    BurstRecordsDeletion(Next(m, Start(0, e.call)), 0, e.outs, 0, r);
  }

  /** Neither `r` nor access tokens written for it work in state `m`, given when its row disappeared. */
  predicate Expired(m: Machine, r: Token, deleted: int, access: Token, outs: seq<Outcome>)
    requires |outs| >= 4
  {
    && r !in m.stores.rows
    && (m.now >= deleted + REFRESH_TOKEN_TTL ==>
          RunCall(m.stores, m.now, RefreshRead(access, r), outs, 0).1.Rejected?)
    && (m.now >= deleted + REFRESH_TOKEN_TTL + ACCESS_TOKEN_TTL ==>
          (access in m.writes && m.writes[access].refresh == r ==>
             Live(m.stores.cache, AccessKey(access), m.now).None?))
  }

  lemma DeletedIsExpired(m: Machine, r: Token, deleted: int, access: Token, outs: seq<Outcome>)
    requires Inv(m, 0) && r in m.deletedAt && m.deletedAt[r] == deleted && |outs| >= 4
    ensures Expired(m, r, deleted, access, outs)
  {
    DeletedIsStale(m, r, deleted, 0);
    if m.now >= deleted + REFRESH_TOKEN_TTL {
      UnknownIsRejected(m.stores, m.now, access, r, outs);
    }
  }

  /** Bounded staleness of uninterrupted operations: once the row of `r` is deleted at time T, no
      Refresh of it succeeds from T + the refresh lifetime on, and no access token written for it
      validates from T + both lifetimes on. */
  lemma AtomicStaleness(trace: seq<Machine>, events: seq<Event>, k: nat, n: nat, r: Token, access: Token,
                        outs: seq<Outcome>)
    requires IsAtomicRun(trace, events) && k < n < |trace| && DeletedBy(trace, k, r) && |outs| >= 4
    ensures Expired(trace[n], r, trace[k].now, access, outs)
  {
    AtomicDeletion(trace, events, k, r);
    DeletionPersists(trace, events, k + 1, n, r);
    AtomicInv(trace, events, n);
    DeletedIsExpired(trace[n], r, trace[k].now, access, outs);
  }
}
