/** The session service over its two stores. */
module SessionService {
  import opened Wrappers
  import opened SessionStores
  import opened SessionCalls

  class Service {
    const repo: PGStore
    const tokens: RedisStore

    constructor (repo: PGStore, tokens: RedisStore)
      ensures this.repo == repo && this.tokens == tokens
    {
      this.repo, this.tokens := repo, tokens;
    }

    function Stores(): Stores
      reads repo, tokens
    {
      SessionCalls.Stores(repo.rows, tokens.cache)
    }

    /** The generated tokens and session id are parameters. */
    method Create(user: User, id: SessionId, access: Token, refresh: Token, now: int, outs: seq<Outcome>)
      returns (r: Reply)
      requires |outs| == 3
      modifies repo, tokens
      ensures (Stores(), r) == RunCall(old(Stores()), now, CreateRow(id, user, access, refresh), outs, 0)
    {
      ghost var run := RunCall(Stores(), now, CreateRow(id, user, access, refresh), outs, 0);
      var ok := repo.Create(id, user, refresh, outs[0]);
      if !ok {
        return Rejected(StoreFailure);
      }
      assert run == RunCall(Stores(), now, CreateAccess(user, access, refresh), outs, 1);
      ok := tokens.Set(AccessKey(access), user, ACCESS_TOKEN_TTL, now, outs[1]);
      if !ok {
        return Rejected(StoreFailure);
      }
      assert run == RunCall(Stores(), now, CreateRefresh(user, access, refresh), outs, 2);
      ok := tokens.Set(RefreshKey(refresh), user, REFRESH_TOKEN_TTL, now, outs[2]);
      if !ok {
        return Rejected(StoreFailure);
      }
      r := Issued(access, refresh);
    }

    method ValidateAccess(access: Token, now: int, outcome: Outcome) returns (r: Result<User, SessionError>)
      ensures r == if !outcome.Failed() && Live(tokens.cache, AccessKey(access), now).Some?
                   then Ok(Live(tokens.cache, AccessKey(access), now).value)
                   else Err(InvalidAccessToken)
    {
      var user := tokens.Get(AccessKey(access), now, outcome);
      if user.None? {
        return Err(InvalidAccessToken);
      }
      r := Ok(user.value);
    }

    /** On a cache hit the outcome of the access write is the second one used. */
    method Refresh(refresh: Token, access: Token, now: int, outs: seq<Outcome>) returns (r: Reply)
      requires |outs| == 4
      modifies repo, tokens
      ensures (Stores(), r) == RunCall(old(Stores()), now, RefreshRead(access, refresh), outs, 0)
    {
      ghost var run := RunCall(Stores(), now, RefreshRead(access, refresh), outs, 0);
      var user := tokens.Get(RefreshKey(refresh), now, outs[0]);
      var last := outs[1];
      if user.None? {
        assert run == RunCall(Stores(), now, RefreshQuery(access, refresh), outs, 1);
        var found := repo.GetUserIDByRefreshToken(refresh, outs[1]);
        if found == Err(SessionNotFound) {
          return Rejected(InvalidRefreshToken);
        }
        if found.Err? {
          return Rejected(StoreFailure);
        }
        user := Some(found.value);
        assert run == RunCall(Stores(), now, RefreshFill(user.value, access, refresh), outs, 2);
        var _ := tokens.Set(RefreshKey(refresh), user.value, REFRESH_TOKEN_TTL, now, outs[2]);
        last := outs[3];
        assert run == RunCall(Stores(), now, RefreshSet(user.value, access, refresh), outs, 3);
      }
      var ok := tokens.Set(AccessKey(access), user.value, ACCESS_TOKEN_TTL, now, last);
      if !ok {
        return Rejected(StoreFailure);
      }
      r := Renewed(access);
    }

    method Revoke(refresh: Token, now: int, outs: seq<Outcome>) returns (r: Reply)
      requires |outs| == 3
      modifies repo, tokens
      ensures (Stores(), r) == RunCall(old(Stores()), now, RevokeFind(refresh), outs, 0)
    {
      ghost var run, rows := RunCall(Stores(), now, RevokeFind(refresh), outs, 0), repo.rows;
      var deleted := repo.DeleteByRefreshToken(refresh, outs[0], outs[1]);
      assert outs[0].Done? && refresh in rows ==>
        run == RunCall(SessionCalls.Stores(rows, tokens.cache), now, RevokeDelete(rows[refresh].id, refresh), outs, 1);
      if deleted == Err(SessionNotFound) {
        return Rejected(NoSession);
      }
      if deleted.Err? {
        return Rejected(StoreFailure);
      }
      assert run == RunCall(Stores(), now, RevokeForget(refresh), outs, 2);
      var _ := tokens.Delete(RefreshKey(refresh), outs[2]);
      r := Revoked;
    }

    method RevokeAll(user: User, now: int, outs: seq<Outcome>) returns (r: Reply)
      requires |outs| == 1
      modifies repo
      ensures (Stores(), r) == RunCall(old(Stores()), now, RevokeAllDelete(user), outs, 0)
    {
      var ok := repo.DeleteByUserID(user, outs[0]);
      r := if ok then Revoked else Rejected(StoreFailure);
    }
  }
}
