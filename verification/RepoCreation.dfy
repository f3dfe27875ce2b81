/** Creating and deleting a repository: a table row and a directory, with compensation. */
module RepoCreation {
  import opened Wrappers
  import opened RepoPaths

  type RepoId = nat
  type User = nat

  datatype Row = Row(name: string, owner: User, active: bool)

  /** The table, and which request's row each initialised directory belongs to. */
  datatype Stores = Stores(rows: map<RepoId, Row>, dirs: map<string, RepoId>)

  datatype Response = Created | NoContent | BadRequest | NotFound | Forbidden | InternalError

  /** A request in progress, named after what it does next. Both rollback attempts are soft deletes: the
      store's hard delete is one too. */
  datatype Call =
    | InsertRow(id: RepoId, name: string, owner: User)
    | InitDirectory(id: RepoId, name: string)
    | SoftDelete(id: RepoId)
    | HardDelete(id: RepoId)
    | FindRow(id: RepoId, user: User)
    | RemoveRow(id: RepoId)
  {
    predicate First() {
      (InsertRow? && ValidRepoName(name)) || FindRow?
    }

    function Left(): nat {
      match this
      case InsertRow(_, _, _) => 4
      case InitDirectory(_, _) => 3
      case SoftDelete(_) => 2
      case HardDelete(_) => 1
      case FindRow(_, _) => 2
      case RemoveRow(_) => 1
    }
  }

  datatype Progress = Continue(next: Call) | Finished(response: Response)

  function Deactivated(rows: map<RepoId, Row>, id: RepoId): map<RepoId, Row> {
    if id in rows then rows[id := rows[id].(active := false)] else rows
  }

  /** A soft delete fails when there is no row. */
  predicate Deletes(s: Stores, id: RepoId, o: Outcome) {
    o.Done? && id in s.rows
  }

  /** Initialising a directory succeeds at most once per path. */
  predicate Initialises(s: Stores, path: string, o: Outcome) {
    o.Applied() && path !in s.dirs
  }

  /** One store or disk call that ends as `o`. */
  function StepCall(root: string, s: Stores, call: Call, o: Outcome): (r: (Stores, Progress))
    ensures r.1.Continue? ==> r.1.next.Left() < call.Left() && !r.1.next.First()
  {
    match call
    case InsertRow(id, name, owner) =>
      if id in s.rows then (s, Finished(InternalError))
      else
        (if o.Applied() then s.(rows := s.rows[id := Row(name, owner, true)]) else s,
         if o.Done? then Continue(InitDirectory(id, name)) else Finished(InternalError))
    case InitDirectory(id, name) =>
      var path := RepoPath(root, name);
      (if Initialises(s, path, o) then s.(dirs := s.dirs[path := id]) else s,
       if o.Done? && path !in s.dirs then Finished(Created) else Continue(SoftDelete(id)))
    case SoftDelete(id) =>
      (if o.Applied() then s.(rows := Deactivated(s.rows, id)) else s,
       if Deletes(s, id, o) then Finished(InternalError) else Continue(HardDelete(id)))
    case HardDelete(id) =>
      (if o.Applied() then s.(rows := Deactivated(s.rows, id)) else s, Finished(InternalError))
    case FindRow(id, user) =>
      (s, if o.Failed() then Finished(InternalError)
          else if id !in s.rows then Finished(NotFound)
          else if s.rows[id].owner != user then Finished(Forbidden)
          else Continue(RemoveRow(id)))
    case RemoveRow(id) =>
      (if o.Applied() then s.(rows := Deactivated(s.rows, id)) else s,
       Finished(if Deletes(s, id, o) then NoContent else InternalError))
  }

  /** An uninterrupted request, its calls ending as outs[i], outs[i + 1] and so on. */
  function RunCall(root: string, s: Stores, call: Call, outs: seq<Outcome>, i: nat): (Stores, Response)
    requires |outs| >= i + call.Left()
    decreases call.Left()
  {
    var (s', progress) := StepCall(root, s, call, outs[i]);
    match progress
    case Finished(response) => (s', response)
    case Continue(next) => RunCall(root, s', next, outs, i + 1)
  }

  /** A creation, for every way its calls can end: it answers Created exactly when the row was new, its path
      free and both calls succeeded; the row is kept unless a rollback reached it, and a directory, once
      initialised, stays. */
  lemma CreateEffect(root: string, s: Stores, id: RepoId, name: string, owner: User, outs: seq<Outcome>)
    requires |outs| >= 4
    ensures var (after, response) := RunCall(root, s, InsertRow(id, name, owner), outs, 0);
            var path := RepoPath(root, name);
            var inserted := id !in s.rows && outs[0] != Refused;
            var begun := id !in s.rows && outs[0] == Done;
            var created := begun && path !in s.dirs && outs[1] == Done;
            var rolledBack := begun && !created && (outs[2] != Refused || outs[3] != Refused);
            && response == (if created then Created else InternalError)
            && after.rows == (if inserted then s.rows[id := Row(name, owner, !rolledBack)] else s.rows)
            && after.dirs == (if begun && path !in s.dirs && outs[1] != Refused then s.dirs[path := id] else s.dirs)
  {
    var path := RepoPath(root, name);
    if id !in s.rows && outs[0] == Done {
      var s1 := Stores(s.rows[id := Row(name, owner, true)], s.dirs);
      assert RunCall(root, s, InsertRow(id, name, owner), outs, 0)
          == RunCall(root, s1, InitDirectory(id, name), outs, 1);
      if !(path !in s.dirs && outs[1] == Done) {
        var s2 := StepCall(root, s1, InitDirectory(id, name), outs[1]).0;
        assert RunCall(root, s1, InitDirectory(id, name), outs, 1) == RunCall(root, s2, SoftDelete(id), outs, 2);
        RollbackEffect(root, s2, id, outs);
      }
    }
  }

  /** A rollback marks the row as deleted unless both deletes are refused. */
  lemma RollbackEffect(root: string, s: Stores, id: RepoId, outs: seq<Outcome>)
    requires |outs| >= 4 && id in s.rows
    ensures var (after, response) := RunCall(root, s, SoftDelete(id), outs, 2);
            && response == InternalError && after.dirs == s.dirs
            && after.rows
               == (if outs[2] != Refused || outs[3] != Refused
                   then s.rows[id := Row(s.rows[id].name, s.rows[id].owner, false)] else s.rows)
  {
    if outs[2] != Done {
      var s' := StepCall(root, s, SoftDelete(id), outs[2]).0;
      assert RunCall(root, s, SoftDelete(id), outs, 2) == RunCall(root, s', HardDelete(id), outs, 3);
    }
  }

  /** A deletion, for every way its calls can end. */
  lemma DeleteEffect(root: string, s: Stores, id: RepoId, user: User, outs: seq<Outcome>)
    requires |outs| >= 2
    ensures var (after, response) := RunCall(root, s, FindRow(id, user), outs, 0);
            var found := outs[0] == Done && id in s.rows && s.rows[id].owner == user;
            && after == (if found && outs[1] != Refused
                         then Stores(s.rows[id := Row(s.rows[id].name, user, false)], s.dirs) else s)
            && response == (if outs[0] != Done then InternalError
                            else if id !in s.rows then NotFound
                            else if s.rows[id].owner != user then Forbidden
                            else if outs[1] == Done then NoContent
                            else InternalError)
  {
    if outs[0].Done? && id in s.rows && s.rows[id].owner == user {
      assert RunCall(root, s, FindRow(id, user), outs, 0) == RunCall(root, s, RemoveRow(id), outs, 1);
    }
  }

  /** Deleted rows are still found: after a successful delete, deleting again as the same user changes
      nothing, however its calls end, and answers success again when they succeed. */
  lemma DeletingAgainSucceeds(root: string, s: Stores, id: RepoId, user: User, outs: seq<Outcome>, again: seq<Outcome>)
    requires |outs| >= 2 && |again| >= 2
    requires RunCall(root, s, FindRow(id, user), outs, 0).1 == NoContent
    ensures var after := RunCall(root, s, FindRow(id, user), outs, 0).0;
            var (later, response) := RunCall(root, after, FindRow(id, user), again, 0);
            && id in after.rows && !after.rows[id].active && later == after
            && (response == NoContent <==> again[0].Done? && again[1].Done?)
  {
    var after := RunCall(root, s, FindRow(id, user), outs, 0).0;
    DeleteEffect(root, s, id, user, outs);
    DeleteEffect(root, after, id, user, again);
    assert Deactivated(after.rows, id) == after.rows;
  }

  /** The repository table and the repositories directory. */
  class Backend {
    const root: string
    var rows: map<RepoId, Row>
    var dirs: map<string, RepoId>

    constructor (root: string)
      ensures this.root == root && rows == map[] && dirs == map[]
    {
      this.root, rows, dirs := root, map[], map[];
    }

    function State(): Stores
      reads this
    {
      Stores(rows, dirs)
    }

    method InsertRow(id: RepoId, name: string, owner: User, o: Outcome) returns (ok: bool)
      modifies this`rows
      ensures ok <==> id !in old(rows) && o.Done?
      ensures rows == if id !in old(rows) && o.Applied() then old(rows)[id := Row(name, owner, true)] else old(rows)
    {
      ok := id !in rows && o.Done?;
      if id !in rows && o.Applied() {
        rows := rows[id := Row(name, owner, true)];
      }
    }

    /** Finds rows whether or not they are marked as deleted. */
    method GetByID(id: RepoId, o: Outcome) returns (r: Result<Row, Response>)
      ensures r == if o.Failed() then Err(InternalError) else if id in rows then Ok(rows[id]) else Err(NotFound)
    {
      if o.Failed() {
        return Err(InternalError);
      }
      r := if id in rows then Ok(rows[id]) else Err(NotFound);
    }

    method SoftDelete(id: RepoId, o: Outcome) returns (ok: bool)
      modifies this`rows
      ensures ok <==> Deletes(old(State()), id, o)
      ensures rows == if o.Applied() then Deactivated(old(rows), id) else old(rows)
    {
      ok := id in rows && o.Done?;
      if o.Applied() {
        rows := Deactivated(rows, id);
      }
    }

    /** The row store's hard delete. */
    method Delete(id: RepoId, o: Outcome) returns (ok: bool)
      modifies this`rows
      ensures ok <==> Deletes(old(State()), id, o)
      ensures rows == if o.Applied() then Deactivated(old(rows), id) else old(rows)
    {
      ok := SoftDelete(id, o);
    }

    /** The Git service's creation: it checks the name again, then initialises the directory. */
    method InitDirectory(id: RepoId, name: string, o: Outcome) returns (ok: bool)
      modifies this`dirs
      ensures ok <==> ValidRepoName(name) && o.Done? && RepoPath(root, name) !in old(dirs)
      ensures dirs == if ValidRepoName(name) && Initialises(old(State()), RepoPath(root, name), o)
                      then old(dirs)[RepoPath(root, name) := id] else old(dirs)
    {
      if !ValidRepoName(name) {
        return false;
      }
      var path := RepoPath(root, name);
      ok := o.Done? && path !in dirs;
      if o.Applied() && path !in dirs {
        dirs := dirs[path := id];
      }
    }
  }

  class RepositoryPresenter {
    const backend: Backend

    constructor (backend: Backend)
      ensures this.backend == backend
    {
      this.backend := backend;
    }

    method Create(id: RepoId, name: string, owner: User, outs: seq<Outcome>) returns (r: Response)
      requires |outs| == 4
      modifies backend
      ensures !ValidRepoName(name) ==> r == BadRequest && backend.State() == old(backend.State())
      ensures ValidRepoName(name) ==>
                (backend.State(), r) == RunCall(backend.root, old(backend.State()), InsertRow(id, name, owner), outs, 0)
    {
      if !ValidRepoName(name) {
        return BadRequest;
      }
      ghost var run := RunCall(backend.root, backend.State(), Call.InsertRow(id, name, owner), outs, 0);
      var ok := backend.InsertRow(id, name, owner, outs[0]);
      if !ok {
        return InternalError;
      }
      assert run == RunCall(backend.root, backend.State(), Call.InitDirectory(id, name), outs, 1);
      ok := backend.InitDirectory(id, name, outs[1]);
      if !ok {
        assert run == RunCall(backend.root, backend.State(), Call.SoftDelete(id), outs, 2);
        var rolledBack := backend.SoftDelete(id, outs[2]);
        if !rolledBack {
          assert run == RunCall(backend.root, backend.State(), Call.HardDelete(id), outs, 3);
          rolledBack := backend.Delete(id, outs[3]);
        }
        return InternalError;
      }
      r := Created;
    }

    method Delete(id: RepoId, user: User, outs: seq<Outcome>) returns (r: Response)
      requires |outs| == 2
      modifies backend
      ensures (backend.State(), r) == RunCall(backend.root, old(backend.State()), FindRow(id, user), outs, 0)
    {
      ghost var run := RunCall(backend.root, backend.State(), FindRow(id, user), outs, 0);
      var found := backend.GetByID(id, outs[0]);
      if found.Err? {
        return found.error;
      }
      if found.value.owner != user {
        return Forbidden;
      }
      assert run == RunCall(backend.root, backend.State(), RemoveRow(id), outs, 1);
      var ok := backend.SoftDelete(id, outs[1]);
      if !ok {
        return InternalError;
      }
      r := NoContent;
    }
  }
}
