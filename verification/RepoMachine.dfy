/** Every interleaving of repository creations and deletions, with failing calls and crashes. */
module RepoMachine {
  import opened Wrappers
  import opened RepoPaths
  import opened RepoCreation

  /** `orphans` are the rows a creation lost control of: its insertion was not acknowledged, it crashed
      after inserting, or both rollback deletes were refused. */
  datatype Machine = Machine(stores: Stores, flights: map<nat, Call>, issued: set<RepoId>, orphans: set<RepoId>)

  datatype Step =
    | Start(req: nat, first: Call)
    | Advance(req: nat, outcome: Outcome)
    | Crash(req: nat)

  const INITIAL := Machine(Stores(map[], map[]), map[], {}, {})

  /** The creation of row `id` has inserted it and not finished. */
  predicate Creating(call: Call, id: RepoId) {
    (call.InitDirectory? || call.SoftDelete? || call.HardDelete?) && call.id == id
  }

  /** Generated repository ids never repeat. */
  predicate Enabled(m: Machine, step: Step) {
    match step
    case Start(req, first) => req !in m.flights && first.First() && (first.InsertRow? ==> first.id !in m.issued)
    case Advance(req, _) => req in m.flights
    case Crash(req) => req in m.flights
  }

  predicate LosesControl(call: Call, o: Outcome) {
    (call.InsertRow? && o.Unacknowledged?) || (call.HardDelete? && o.Refused?)
  }

  function AdvanceCall(root: string, m: Machine, req: nat, o: Outcome): Machine
    requires req in m.flights
  {
    var call := m.flights[req];
    var (stores, progress) := StepCall(root, m.stores, call, o);
    m.(stores := stores,
       flights := if progress.Continue? then m.flights[req := progress.next] else m.flights - {req},
       orphans := if LosesControl(call, o) then m.orphans + {call.id} else m.orphans)
  }

  function Next(root: string, m: Machine, step: Step): Machine {
    match step
    case Start(req, first) =>
      m.(flights := m.flights[req := first], issued := if first.InsertRow? then m.issued + {first.id} else m.issued)
    case Advance(req, o) => if req in m.flights then AdvanceCall(root, m, req, o) else m
    case Crash(req) =>
      m.(flights := m.flights - {req},
         orphans := if req in m.flights && Creating(m.flights[req], m.flights[req].id)
                    then m.orphans + {m.flights[req].id} else m.orphans)
  }

  predicate StepAt(root: string, trace: seq<Machine>, steps: seq<Step>, n: nat)
    requires n < |steps| < |trace|
  {
    Enabled(trace[n], steps[n]) && trace[n + 1] == Next(root, trace[n], steps[n])
  }

  predicate IsRun(root: string, trace: seq<Machine>, steps: seq<Step>) {
    && |trace| == |steps| + 1 && trace[0] == INITIAL
    && forall n :: 0 <= n < |steps| ==> StepAt(root, trace, steps, n)
  }

  // ---- The invariant ----

  predicate Owns(root: string, s: Stores, id: RepoId) {
    && id in s.rows
    && var path := RepoPath(root, s.rows[id].name);
    && path in s.dirs && s.dirs[path] == id
  }

  /** Some request is still creating row `id`. */
  predicate InFlight(m: Machine, id: RepoId) {
    exists req :: req in m.flights && Creating(m.flights[req], id)
  }

  ghost predicate RowOk(root: string, m: Machine, id: RepoId) {
    id in m.stores.rows ==>
      && id in m.issued && ValidRepoName(m.stores.rows[id].name)
      && (m.stores.rows[id].active ==> id in m.orphans || InFlight(m, id) || Owns(root, m.stores, id))
  }

  ghost predicate DirOk(root: string, m: Machine, path: string) {
    path in m.stores.dirs ==>
      var id := m.stores.dirs[path];
      id in m.stores.rows && RepoPath(root, m.stores.rows[id].name) == path
  }

  ghost predicate FlightOk(m: Machine, call: Call) {
    match call
    case InsertRow(id, name, _) => id in m.issued && id !in m.stores.rows && ValidRepoName(name)
    case InitDirectory(id, name) => id in m.stores.rows && m.stores.rows[id].name == name
    case SoftDelete(id) => id in m.stores.rows
    case HardDelete(id) => id in m.stores.rows
    case FindRow(_, _) => true
    case RemoveRow(id) => id in m.stores.rows
  }

  /** A row is inserted and created by one request only. */
  predicate Concerns(call: Call, id: RepoId) {
    Creating(call, id) || (call.InsertRow? && call.id == id)
  }

  ghost predicate FlightsDistinct(m: Machine) {
    forall i, j :: i in m.flights && j in m.flights && i != j ==>
      !(Concerns(m.flights[i], m.flights[i].id) && Concerns(m.flights[j], m.flights[i].id))
  }

  ghost predicate Inv(root: string, m: Machine) {
    && FlightsDistinct(m)
    && (forall id :: RowOk(root, m, id))
    && (forall path :: DirOk(root, m, path))
    && (forall req :: req in m.flights ==> FlightOk(m, m.flights[req]))
  }

  lemma StartKeepsInv(root: string, m: Machine, req: nat, first: Call)
    requires Inv(root, m) && Enabled(m, Start(req, first))
    ensures Inv(root, Next(root, m, Start(req, first)))
  {
    var m' := Next(root, m, Start(req, first));
    assert first.InsertRow? ==> first.id !in m.stores.rows by {
      assert RowOk(root, m, first.id);
    }
    forall i | i in m.flights
      ensures FlightOk(m', m.flights[i]) && (first.InsertRow? ==> !Concerns(m.flights[i], first.id))
    {
      assert FlightOk(m, m.flights[i]);
      if first.InsertRow? {
        assert RowOk(root, m, first.id);
      }
    }
    forall id ensures RowOk(root, m', id) {
      assert RowOk(root, m, id);
      if InFlight(m, id) {
        var i :| i in m.flights && Creating(m.flights[i], id);
        assert m'.flights[i] == m.flights[i];
      }
    }
    forall path ensures DirOk(root, m', path) {
      assert DirOk(root, m, path);
    }
  }

  lemma CrashKeepsInv(root: string, m: Machine, req: nat)
    requires Inv(root, m) && req in m.flights
    ensures Inv(root, Next(root, m, Crash(req)))
  {
    var m' := Next(root, m, Crash(req));
    forall i | i in m'.flights ensures FlightOk(m', m'.flights[i]) {
      assert FlightOk(m, m.flights[i]);
    }
    forall id ensures RowOk(root, m', id) {
      assert RowOk(root, m, id);
      if InFlight(m, id) {
        var i :| i in m.flights && Creating(m.flights[i], id);
        assert i != req ==> i in m'.flights && m'.flights[i] == m.flights[i];
      }
    }
    forall path ensures DirOk(root, m', path) {
      assert DirOk(root, m, path);
    }
  }

  /** Rows and directories only grow, and keep their name and owner. */
  lemma AdvanceKeepsStores(root: string, m: Machine, req: nat, o: Outcome, id: RepoId, path: string)
    requires Inv(root, m) && req in m.flights
    ensures var s, s' := m.stores, AdvanceCall(root, m, req, o).stores;
            && (id in s.rows ==> id in s'.rows && s'.rows[id].name == s.rows[id].name
                                 && (s'.rows[id].active ==> s.rows[id].active))
            && (path in s.dirs ==> path in s'.dirs && s'.dirs[path] == s.dirs[path])
  {
    assert FlightOk(m, m.flights[req]);
  }

  lemma AdvanceKeepsFlight(root: string, m: Machine, req: nat, o: Outcome, i: nat)
    requires Inv(root, m) && req in m.flights && i in AdvanceCall(root, m, req, o).flights
    ensures FlightOk(AdvanceCall(root, m, req, o), AdvanceCall(root, m, req, o).flights[i])
    ensures i in m.flights
    ensures forall id :: Concerns(AdvanceCall(root, m, req, o).flights[i], id) ==> Concerns(m.flights[i], id)
  {
    assert FlightOk(m, m.flights[req]) && FlightOk(m, m.flights[i]);
    AdvanceKeepsStores(root, m, req, o, m.flights[i].id, "");
  }

  lemma AdvanceKeepsDirs(root: string, m: Machine, req: nat, o: Outcome, path: string)
    requires Inv(root, m) && req in m.flights
    ensures DirOk(root, AdvanceCall(root, m, req, o), path)
  {
    assert FlightOk(m, m.flights[req]) && DirOk(root, m, path);
    if path in m.stores.dirs {
      AdvanceKeepsStores(root, m, req, o, m.stores.dirs[path], path);
    }
  }

  /** The request's own row after its step: still in flight, lost, inactive, or owning its directory. */
  lemma AdvanceOwnRow(root: string, m: Machine, req: nat, o: Outcome)
    requires Inv(root, m) && req in m.flights && Concerns(m.flights[req], m.flights[req].id)
    ensures RowOk(root, AdvanceCall(root, m, req, o), m.flights[req].id)
  {
    var call, m' := m.flights[req], AdvanceCall(root, m, req, o);
    assert FlightOk(m, call) && RowOk(root, m, call.id);
    if req in m'.flights {
      assert Creating(m'.flights[req], call.id);
    }
  }

  lemma AdvanceOtherRow(root: string, m: Machine, req: nat, o: Outcome, id: RepoId)
    requires Inv(root, m) && req in m.flights && !Concerns(m.flights[req], id)
    ensures RowOk(root, AdvanceCall(root, m, req, o), id)
  {
    var call, m' := m.flights[req], AdvanceCall(root, m, req, o);
    assert FlightOk(m, call) && RowOk(root, m, id);
    if id in m.stores.rows {
      AdvanceKeepsStores(root, m, req, o, id, RepoPath(root, m.stores.rows[id].name));
    }
    if InFlight(m, id) {
      var i :| i in m.flights && Creating(m.flights[i], id);
      assert i != req && i in m'.flights && m'.flights[i] == m.flights[i];
    }
  }

  lemma AdvanceKeepsInv(root: string, m: Machine, req: nat, o: Outcome)
    requires Inv(root, m) && req in m.flights
    ensures Inv(root, AdvanceCall(root, m, req, o))
  {
    var m' := AdvanceCall(root, m, req, o);
    forall i | i in m'.flights
      ensures FlightOk(m', m'.flights[i]) && i in m.flights
      ensures forall id :: Concerns(m'.flights[i], id) ==> Concerns(m.flights[i], id)
    {
      AdvanceKeepsFlight(root, m, req, o, i);
    }
    forall id ensures RowOk(root, m', id) {
      if Concerns(m.flights[req], id) {
        AdvanceOwnRow(root, m, req, o);
      } else {
        AdvanceOtherRow(root, m, req, o, id);
      }
    }
    forall path ensures DirOk(root, m', path) {
      AdvanceKeepsDirs(root, m, req, o, path);
    }
  }

  lemma {:induction false} EveryStateInv(root: string, trace: seq<Machine>, steps: seq<Step>, n: nat)
    requires IsRun(root, trace, steps) && n < |trace|
    ensures Inv(root, trace[n])
  {
    if n > 0 {
      EveryStateInv(root, trace, steps, n - 1);
      assert StepAt(root, trace, steps, n - 1);
      match steps[n - 1]
      case Start(req, first) => StartKeepsInv(root, trace[n - 1], req, first);
      case Advance(req, o) => AdvanceKeepsInv(root, trace[n - 1], req, o);
      case Crash(req) => CrashKeepsInv(root, trace[n - 1], req);
    }
  }

  /** All remaining calls of one request in a row. */
  function Burst(root: string, m: Machine, req: nat, outs: seq<Outcome>, i: nat): Machine
    requires i <= |outs|
    decreases |outs| - i
  {
    if req in m.flights && i < |outs| then Burst(root, AdvanceCall(root, m, req, outs[i]), req, outs, i + 1) else m
  }

  /** The machine, run without interruption, does what the presenter does. */
  lemma {:induction false} BurstIsRunCall(root: string, m: Machine, req: nat, outs: seq<Outcome>, i: nat)
    requires req in m.flights && i <= |outs| && |outs| - i >= m.flights[req].Left()
    ensures var m' := Burst(root, m, req, outs, i);
            && m'.stores == RunCall(root, m.stores, m.flights[req], outs, i).0
            && m'.flights == m.flights - {req}
    decreases |outs| - i
  {
    var m' := AdvanceCall(root, m, req, outs[i]);
    if req in m'.flights {
      BurstIsRunCall(root, m', req, outs, i + 1);
    } else {
      assert Burst(root, m', req, outs, i + 1) == m';
    }
  }

  // ---- Results ----

  /** An active row whose creation is over and was not lost. */
  predicate Settled(m: Machine, id: RepoId) {
    id in m.stores.rows && m.stores.rows[id].active && id !in m.orphans && !InFlight(m, id)
  }

  /** Consistency in every state of every interleaving: a settled row owns a directory its own request
      initialised; two settled rows never share one, even when their names sanitise alike, so their names
      differ after removing "..". */
  lemma CreationIsConsistent(root: string, trace: seq<Machine>, steps: seq<Step>, n: nat, id: RepoId, other: RepoId)
    requires IsRun(root, trace, steps) && n < |trace|
    requires Settled(trace[n], id) && Settled(trace[n], other)
    ensures var rows := trace[n].stores.rows;
            && Owns(root, trace[n].stores, id)
            && (id != other ==> RepoPath(root, rows[id].name) != RepoPath(root, rows[other].name)
                                && RemoveDots(rows[id].name) != RemoveDots(rows[other].name))
  {
    var m := trace[n];
    EveryStateInv(root, trace, steps, n);
    assert RowOk(root, m, id) && RowOk(root, m, other);
    SharedPathIff(root, m.stores.rows[id].name, m.stores.rows[other].name);
  }

  /** A directory keeps the row it was initialised for. */
  lemma {:induction false} DirectoryIsForever(root: string, trace: seq<Machine>, steps: seq<Step>, k: nat, n: nat,
                                              path: string)
    requires IsRun(root, trace, steps) && k <= n < |trace| && path in trace[k].stores.dirs
    ensures path in trace[n].stores.dirs && trace[n].stores.dirs[path] == trace[k].stores.dirs[path]
  {
    if k < n {
      DirectoryIsForever(root, trace, steps, k, n - 1, path);
      EveryStateInv(root, trace, steps, n - 1);
      assert StepAt(root, trace, steps, n - 1);
      if steps[n - 1].Advance? {
        AdvanceKeepsStores(root, trace[n - 1], steps[n - 1].req, steps[n - 1].outcome, 0, path);
      }
    }
  }

  /** A name is taken for good: once a creation has initialised a directory, no other row is ever settled
      on that path, even after the first one was deleted. */
  lemma NameIsTakenForever(root: string, trace: seq<Machine>, steps: seq<Step>, k: nat, n: nat, id: RepoId)
    requires IsRun(root, trace, steps) && k <= n < |trace|
    requires Settled(trace[n], id) && RepoPath(root, trace[n].stores.rows[id].name) in trace[k].stores.dirs
    ensures trace[k].stores.dirs[RepoPath(root, trace[n].stores.rows[id].name)] == id
  {
    EveryStateInv(root, trace, steps, n);
    assert RowOk(root, trace[n], id);
    DirectoryIsForever(root, trace, steps, k, n, RepoPath(root, trace[n].stores.rows[id].name));
  }

  /** What step k did to lose row `id`. */
  predicate LostAt(trace: seq<Machine>, steps: seq<Step>, k: nat, id: RepoId)
    requires k < |steps| < |trace|
  {
    match steps[k]
    case Start(_, _) => false
    case Advance(req, o) =>
      req in trace[k].flights && trace[k].flights[req].id == id && LosesControl(trace[k].flights[req], o)
    case Crash(req) => req in trace[k].flights && Creating(trace[k].flights[req], id)
  }

  lemma {:induction false} OrphanHasCause(root: string, trace: seq<Machine>, steps: seq<Step>, n: nat, id: RepoId)
    returns (k: nat)
    requires IsRun(root, trace, steps) && n < |trace| && id in trace[n].orphans
    ensures k < n && LostAt(trace, steps, k, id)
  {
    assert n > 0 && StepAt(root, trace, steps, n - 1);
    if id in trace[n - 1].orphans {
      k := OrphanHasCause(root, trace, steps, n - 1, id);
    } else {
      k := n - 1;
    }
  }

  predicate ActiveRow(m: Machine, id: RepoId) {
    id in m.stores.rows && m.stores.rows[id].active
  }

  /** Steps j and k are the two refused deletes of one request's rollback of row `id`. */
  predicate RefusedTwice(trace: seq<Machine>, steps: seq<Step>, j: nat, k: nat, id: RepoId)
    requires k < |steps| < |trace|
  {
    && j < k && steps[k].Advance? && steps[j] == steps[k] == Advance(steps[k].req, Refused)
    && var req := steps[k].req;
    && req in trace[j].flights && trace[j].flights[req] == SoftDelete(id)
    && forall i :: j < i <= k ==> req in trace[i].flights && trace[i].flights[req] == HardDelete(id)
  }

  /** The causes of an active row without a directory, told by the steps alone: an insertion whose
      acknowledgement was lost, a crash of the creation, or a rollback both of whose deletes were
      refused. */
  ghost predicate CauseOfLoss(trace: seq<Machine>, steps: seq<Step>, k: nat, id: RepoId)
    requires k < |steps| < |trace|
  {
    match steps[k]
    case Start(_, _) => false
    case Advance(req, o) =>
      || (req in trace[k].flights && o.Unacknowledged?
          && trace[k].flights[req].InsertRow? && trace[k].flights[req].id == id)
      || exists j :: RefusedTwice(trace, steps, j, k, id)
    case Crash(req) => req in trace[k].flights && Creating(trace[k].flights[req], id)
  }

  /** Before a second rollback delete of a row that is still active, the first one was refused. */
  lemma {:induction false} HardDeleteHasCause(root: string, trace: seq<Machine>, steps: seq<Step>, n: nat,
                                              req: nat, id: RepoId)
    returns (j: nat)
    requires IsRun(root, trace, steps) && n < |trace| && ActiveRow(trace[n], id)
    requires req in trace[n].flights && trace[n].flights[req] == HardDelete(id)
    ensures j < n && steps[j] == Advance(req, Refused)
    ensures req in trace[j].flights && trace[j].flights[req] == SoftDelete(id)
    ensures forall i :: j < i <= n ==> req in trace[i].flights && trace[i].flights[req] == HardDelete(id)
  {
    assert n > 0 && StepAt(root, trace, steps, n - 1);
    EveryStateInv(root, trace, steps, n - 1);
    var m := trace[n - 1];
    if req in m.flights && m.flights[req] == HardDelete(id) {
      WasActive(root, m, steps[n - 1], id);
      j := HardDeleteHasCause(root, trace, steps, n - 1, req, id);
    } else {
      j := n - 1;
      assert FlightOk(m, m.flights[req]);
    }
  }

  /** Rows never become active again. */
  lemma WasActive(root: string, m: Machine, step: Step, id: RepoId)
    requires Inv(root, m) && Enabled(m, step) && ActiveRow(Next(root, m, step), id) && id in m.stores.rows
    ensures ActiveRow(m, id)
  {
    if step.Advance? {
      AdvanceKeepsStores(root, m, step.req, step.outcome, id, "");
    }
  }

  lemma {:induction false} WasActiveBefore(root: string, trace: seq<Machine>, steps: seq<Step>, k: nat, n: nat,
                                           id: RepoId)
    requires IsRun(root, trace, steps) && k <= n < |trace| && id in trace[k].stores.rows && ActiveRow(trace[n], id)
    ensures ActiveRow(trace[k], id)
  {
    if k < n {
      RowsPersist(root, trace, steps, k, n - 1, id);
      EveryStateInv(root, trace, steps, n - 1);
      assert StepAt(root, trace, steps, n - 1);
      WasActive(root, trace[n - 1], steps[n - 1], id);
      WasActiveBefore(root, trace, steps, k, n - 1, id);
    }
  }

  /** Rows stay, under their name. */
  lemma {:induction false} RowsPersist(root: string, trace: seq<Machine>, steps: seq<Step>, k: nat, n: nat, id: RepoId)
    requires IsRun(root, trace, steps) && k <= n < |trace| && id in trace[k].stores.rows
    ensures id in trace[n].stores.rows && trace[n].stores.rows[id].name == trace[k].stores.rows[id].name
  {
    if k < n {
      RowsPersist(root, trace, steps, k, n - 1, id);
      EveryStateInv(root, trace, steps, n - 1);
      assert StepAt(root, trace, steps, n - 1);
      if steps[n - 1].Advance? {
        AdvanceKeepsStores(root, trace[n - 1], steps[n - 1].req, steps[n - 1].outcome, id, "");
      }
    }
  }

  /** An active row that is not being created and does not own its directory has a cause in the run. */
  lemma LostRowHasCause(root: string, trace: seq<Machine>, steps: seq<Step>, n: nat, id: RepoId) returns (k: nat)
    requires IsRun(root, trace, steps) && n < |trace|
    requires ActiveRow(trace[n], id) && !InFlight(trace[n], id) && !Owns(root, trace[n].stores, id)
    ensures k < n && CauseOfLoss(trace, steps, k, id)
  {
    EveryStateInv(root, trace, steps, n);
    assert RowOk(root, trace[n], id);
    k := OrphanHasCause(root, trace, steps, n, id);
    EveryStateInv(root, trace, steps, k);
    var m, step := trace[k], steps[k];
    if step.Advance? && m.flights[step.req].HardDelete? {
      assert FlightOk(m, m.flights[step.req]);
      WasActiveBefore(root, trace, steps, k, n, id);
      var j := HardDeleteHasCause(root, trace, steps, k, step.req, id);
      assert RefusedTwice(trace, steps, j, k, id);
    }
  }

  /** Step k initialised the free directory of row `id`, as the creation of that row. */
  predicate InitialisedAt(root: string, trace: seq<Machine>, steps: seq<Step>, k: nat, id: RepoId)
    requires k < |steps| < |trace|
  {
    && steps[k].Advance? && steps[k].req in trace[k].flights
    && var call := trace[k].flights[steps[k].req];
    && call.InitDirectory? && call.id == id
    && Initialises(trace[k].stores, RepoPath(root, call.name), steps[k].outcome)
  }

  lemma {:induction false} DirectoryWasInitialised(root: string, trace: seq<Machine>, steps: seq<Step>, n: nat,
                                                   path: string)
    returns (k: nat)
    requires IsRun(root, trace, steps) && n < |trace| && path in trace[n].stores.dirs
    ensures k < n && InitialisedAt(root, trace, steps, k, trace[n].stores.dirs[path])
  {
    assert n > 0 && StepAt(root, trace, steps, n - 1);
    if path in trace[n - 1].stores.dirs {
      DirectoryIsForever(root, trace, steps, n - 1, n, path);
      k := DirectoryWasInitialised(root, trace, steps, n - 1, path);
    } else {
      k := n - 1;
    }
  }

  lemma InitialisedIsOwned(root: string, trace: seq<Machine>, steps: seq<Step>, k: nat, n: nat, id: RepoId)
    requires IsRun(root, trace, steps) && k < n < |trace| && InitialisedAt(root, trace, steps, k, id)
    ensures Owns(root, trace[n].stores, id)
  {
    EveryStateInv(root, trace, steps, k);
    assert StepAt(root, trace, steps, k) && FlightOk(trace[k], trace[k].flights[steps[k].req]);
    assert Owns(root, trace[k + 1].stores, id);
    RowsPersist(root, trace, steps, k + 1, n, id);
    DirectoryIsForever(root, trace, steps, k + 1, n, RepoPath(root, trace[k + 1].stores.rows[id].name));
  }

  /** In every state of every interleaving a row owns its directory exactly when a step of its own creation
      initialised it on a free path: nothing takes a directory away, and nothing else gives one. */
  lemma OwnsIffInitialised(root: string, trace: seq<Machine>, steps: seq<Step>, n: nat, id: RepoId)
    requires IsRun(root, trace, steps) && n < |trace|
    ensures Owns(root, trace[n].stores, id) <==> exists k: nat :: k < n && InitialisedAt(root, trace, steps, k, id)
  {
    if Owns(root, trace[n].stores, id) {
      var k := DirectoryWasInitialised(root, trace, steps, n, RepoPath(root, trace[n].stores.rows[id].name));
    } else if k: nat :| k < n && InitialisedAt(root, trace, steps, k, id) {
      InitialisedIsOwned(root, trace, steps, k, n, id);
    }
  }

  /** A run that ends with a lost row: the directory and both rollback deletes are refused. */
  lemma LostRowIsReachable(root: string, id: RepoId, name: string, owner: User)
    returns (trace: seq<Machine>, steps: seq<Step>)
    requires ValidRepoName(name)
    ensures IsRun(root, trace, steps) && |steps| == 5
    ensures var m := trace[|steps|];
            m.flights == map[] && m.stores == Stores(map[id := Row(name, owner, true)], map[])
            && !Owns(root, m.stores, id)
    ensures RefusedTwice(trace, steps, 3, 4, id)
  {
    var row := Stores(map[id := Row(name, owner, true)], map[]);
    steps := [Start(0, InsertRow(id, name, owner)), Advance(0, Done), Advance(0, Refused), Advance(0, Refused),
              Advance(0, Refused)];
    trace := [INITIAL,
              Machine(INITIAL.stores, map[0 := InsertRow(id, name, owner)], {id}, {}),
              Machine(row, map[0 := InitDirectory(id, name)], {id}, {}),
              Machine(row, map[0 := SoftDelete(id)], {id}, {}),
              Machine(row, map[0 := HardDelete(id)], {id}, {}),
              Machine(row, map[], {id}, {id})];
    forall n | 0 <= n < |steps| ensures StepAt(root, trace, steps, n) {
      assert trace[n + 1] == Next(root, trace[n], steps[n]);
    }
  }

  /** Step k answers Created to the request that creates row `id`. */
  predicate AnswersCreated(root: string, trace: seq<Machine>, steps: seq<Step>, k: nat, id: RepoId)
    requires k < |steps| < |trace|
  {
    && steps[k].Advance? && steps[k].req in trace[k].flights && trace[k].flights[steps[k].req].id == id
    && StepCall(root, trace[k].stores, trace[k].flights[steps[k].req], steps[k].outcome).1 == Finished(Created)
  }

  lemma CreatedOwnsDirectory(root: string, m: Machine, req: nat, o: Outcome)
    requires Inv(root, m) && req in m.flights
    requires StepCall(root, m.stores, m.flights[req], o).1 == Finished(Created)
    ensures Owns(root, AdvanceCall(root, m, req, o).stores, m.flights[req].id)
  {
    assert FlightOk(m, m.flights[req]);
  }

  /** A successful answer is kept: from the step that answers Created on, in every later state, the row owns
      its directory. */
  lemma CreatedIsKept(root: string, trace: seq<Machine>, steps: seq<Step>, k: nat, n: nat, id: RepoId)
    requires IsRun(root, trace, steps) && k < n < |trace| && AnswersCreated(root, trace, steps, k, id)
    ensures Owns(root, trace[n].stores, id)
  {
    EveryStateInv(root, trace, steps, k);
    assert StepAt(root, trace, steps, k);
    CreatedOwnsDirectory(root, trace[k], steps[k].req, steps[k].outcome);
    var after := trace[k + 1].stores;
    assert Owns(root, after, id);
    RowsPersist(root, trace, steps, k + 1, n, id);
    DirectoryIsForever(root, trace, steps, k + 1, n, RepoPath(root, after.rows[id].name));
  }
}
