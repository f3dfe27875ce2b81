/** The two stores behind sessions: the session table and the expiring token cache. */
module SessionStores {
  import opened Wrappers

  type Token = string
  type User = nat
  type SessionId = nat

  /** Seconds. */
  const ACCESS_TOKEN_TTL := 15 * 60
  const REFRESH_TOKEN_TTL := 7 * 24 * 3600

  /** A table row; the refresh token is its key in `Table`. */
  datatype Session = Session(id: SessionId, user: User)

  datatype Key = AccessKey(token: Token) | RefreshKey(token: Token) {
    function Name(): string {
      match this
      case AccessKey(token) => "access:" + token
      case RefreshKey(token) => "refresh:" + token
    }
  }

  datatype Entry = Entry(user: User, expiresAt: int)

  /** Refresh tokens are unique in the table. */
  type Table = map<Token, Session>

  type Cache = map<Key, Entry>

  /** Distinct cache keys have distinct names. */
  lemma KeyNamesAreDistinct(a: Key, b: Key)
    ensures a.Name() == b.Name() <==> a == b
  {
    var x, y := a.Name(), b.Name();
    if a.AccessKey? != b.AccessKey? {
      assert x[0] != y[0];
    } else if x == y {
      var prefix := if a.AccessKey? then 7 else 8;
      assert a.token == x[prefix..] && b.token == y[prefix..];
    }
  }

  predicate IdInUse(rows: Table, id: SessionId) {
    exists r :: r in rows && rows[r].id == id
  }

  /** Insertion violates the unique columns when either is present. */
  predicate Insertable(rows: Table, id: SessionId, token: Token) {
    token !in rows && !IdInUse(rows, id)
  }

  function WithoutId(rows: Table, id: SessionId): Table {
    map r | r in rows && rows[r].id != id :: rows[r]
  }

  function WithoutUser(rows: Table, user: User): Table {
    map r | r in rows && rows[r].user != user :: rows[r]
  }

  predicate UniqueIds(rows: Table) {
    forall r, q :: r in rows && q in rows && rows[r].id == rows[q].id ==> r == q
  }

  /** The value of a key that has not expired. */
  function Live(cache: Cache, key: Key, now: int): Option<User> {
    if key in cache && now < cache[key].expiresAt then Some(cache[key].user) else None
  }

  datatype RepoError = SessionNotFound | QueryFailed

  class PGStore {
    var rows: Table

    constructor ()
      ensures rows == map[]
    {
      rows := map[];
    }

    /** True when the insertion was acknowledged. */
    method Create(id: SessionId, user: User, token: Token, outcome: Outcome) returns (ok: bool)
      modifies this
      ensures var free := token !in old(rows) && forall r :: r in old(rows) ==> old(rows)[r].id != id;
              && ok == (free && outcome == Done)
              && rows == if free && outcome != Refused then old(rows)[token := Session(id, user)] else old(rows)
    {
      var insertable := Insertable(rows, id, token);
      if insertable && outcome.Applied() {
        rows := rows[token := Session(id, user)];
      }
      ok := insertable && outcome.Done?;
    }

    method GetUserIDByRefreshToken(token: Token, outcome: Outcome) returns (r: Result<User, RepoError>)
      ensures r == if outcome.Failed() then Err(QueryFailed)
                   else if token !in rows then Err(SessionNotFound)
                   else Ok(rows[token].user)
    {
      if outcome.Failed() {
        return Err(QueryFailed);
      }
      if token !in rows {
        return Err(SessionNotFound);
      }
      r := Ok(rows[token].user);
    }

    /** Finds the row, then deletes it by its session id; the two statements end as `find` and `delete`. */
    method DeleteByRefreshToken(token: Token, find: Outcome, delete: Outcome) returns (r: Result<(), RepoError>)
      modifies this
      ensures find.Failed() ==> r == Err(QueryFailed) && rows == old(rows)
      ensures !find.Failed() && token !in old(rows) ==> r == Err(SessionNotFound) && rows == old(rows)
      ensures !find.Failed() && token in old(rows) ==>
                && r == (if delete.Failed() then Err(QueryFailed) else Ok(()))
                && rows == (if delete.Applied() then WithoutId(old(rows), old(rows)[token].id) else old(rows))
    {
      if find.Failed() {
        return Err(QueryFailed);
      }
      if token !in rows {
        return Err(SessionNotFound);
      }
      var id := rows[token].id;
      if delete.Applied() {
        rows := WithoutId(rows, id);
      }
      r := if delete.Failed() then Err(QueryFailed) else Ok(());
    }

    method DeleteByUserID(user: User, outcome: Outcome) returns (ok: bool)
      modifies this
      ensures ok <==> outcome.Done?
      ensures rows == if outcome.Applied() then WithoutUser(old(rows), user) else old(rows)
    {
      if outcome.Applied() {
        rows := WithoutUser(rows, user);
      }
      ok := outcome.Done?;
    }
  }

  class RedisStore {
    var cache: Cache

    constructor ()
      ensures cache == map[]
    {
      cache := map[];
    }

    method Set(key: Key, user: User, ttl: int, now: int, outcome: Outcome) returns (ok: bool)
      modifies this
      ensures ok <==> outcome.Done?
      ensures cache == if outcome.Applied() then old(cache)[key := Entry(user, now + ttl)] else old(cache)
    {
      if outcome.Applied() {
        cache := cache[key := Entry(user, now + ttl)];
      }
      ok := outcome.Done?;
    }

    method Get(key: Key, now: int, outcome: Outcome) returns (r: Option<User>)
      ensures r == if outcome.Failed() then None else Live(cache, key, now)
    {
      r := if outcome.Failed() then None else Live(cache, key, now);
    }

    method Delete(key: Key, outcome: Outcome) returns (ok: bool)
      modifies this
      ensures ok <==> outcome.Done?
      ensures cache == if outcome.Applied() then old(cache) - {key} else old(cache)
    {
      if outcome.Applied() {
        cache := cache - {key};
      }
      ok := outcome.Done?;
    }
  }
}
