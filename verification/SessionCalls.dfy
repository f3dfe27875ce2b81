/** The session operations as sequences of single store calls. */
module SessionCalls {
  import opened Wrappers
  import opened SessionStores

  datatype Stores = Stores(rows: Table, cache: Cache)

  datatype SessionError = InvalidRefreshToken | InvalidAccessToken | NoSession | StoreFailure

  datatype Reply =
    | Issued(access: Token, refresh: Token)
    | Renewed(access: Token)
    | Revoked
    | Rejected(error: SessionError)

  /** An operation in progress, named after the store call it makes next. */
  datatype Call =
    | CreateRow(id: SessionId, user: User, access: Token, refresh: Token)
    | CreateAccess(user: User, access: Token, refresh: Token)
    | CreateRefresh(user: User, access: Token, refresh: Token)
    | RefreshRead(access: Token, refresh: Token)
    | RefreshQuery(access: Token, refresh: Token)
    | RefreshFill(user: User, access: Token, refresh: Token)
    | RefreshSet(user: User, access: Token, refresh: Token)
    | RevokeFind(refresh: Token)
    | RevokeDelete(id: SessionId, refresh: Token)
    | RevokeForget(refresh: Token)
    | RevokeAllDelete(user: User)
  {
    /** The first call of an operation. */
    predicate First() {
      CreateRow? || RefreshRead? || RevokeFind? || RevokeAllDelete?
    }

    /** Store calls left at most. */
    function Left(): nat {
      match this
      case CreateRow(_, _, _, _) => 3
      case CreateAccess(_, _, _) => 2
      case CreateRefresh(_, _, _) => 1
      case RefreshRead(_, _) => 4
      case RefreshQuery(_, _) => 3
      case RefreshFill(_, _, _) => 2
      case RefreshSet(_, _, _) => 1
      case RevokeFind(_) => 3
      case RevokeDelete(_, _) => 2
      case RevokeForget(_) => 1
      case RevokeAllDelete(_) => 1
    }
  }

  datatype Progress = Continue(next: Call) | Finished(reply: Reply)

  function SetKey(s: Stores, key: Key, user: User, expiresAt: int, o: Outcome): Stores {
    if o.Applied() then s.(cache := s.cache[key := Entry(user, expiresAt)]) else s
  }

  /** One store call at time `now` that ends as `o`. */
  function StepCall(s: Stores, now: int, call: Call, o: Outcome): (r: (Stores, Progress))
    ensures r.1.Continue? ==> r.1.next.Left() < call.Left() && !r.1.next.First()
  {
    match call
    case CreateRow(id, user, access, refresh) =>
      if !Insertable(s.rows, id, refresh) then (s, Finished(Rejected(StoreFailure)))
      else
        (if o.Applied() then s.(rows := s.rows[refresh := Session(id, user)]) else s,
         if o.Done? then Continue(CreateAccess(user, access, refresh)) else Finished(Rejected(StoreFailure)))
    case CreateAccess(user, access, refresh) =>
      (SetKey(s, AccessKey(access), user, now + ACCESS_TOKEN_TTL, o),
       if o.Done? then Continue(CreateRefresh(user, access, refresh)) else Finished(Rejected(StoreFailure)))
    case CreateRefresh(user, access, refresh) =>
      (SetKey(s, RefreshKey(refresh), user, now + REFRESH_TOKEN_TTL, o),
       Finished(if o.Done? then Issued(access, refresh) else Rejected(StoreFailure)))
    case RefreshRead(access, refresh) =>
      (s, if o.Done? && Live(s.cache, RefreshKey(refresh), now).Some?
          then Continue(RefreshSet(Live(s.cache, RefreshKey(refresh), now).value, access, refresh))
          else Continue(RefreshQuery(access, refresh)))
    case RefreshQuery(access, refresh) =>
      (s, if o.Failed() then Finished(Rejected(StoreFailure))
          else if refresh !in s.rows then Finished(Rejected(InvalidRefreshToken))
          else Continue(RefreshFill(s.rows[refresh].user, access, refresh)))
    case RefreshFill(user, access, refresh) =>
      (SetKey(s, RefreshKey(refresh), user, now + REFRESH_TOKEN_TTL, o), Continue(RefreshSet(user, access, refresh)))
    case RefreshSet(user, access, refresh) =>
      (SetKey(s, AccessKey(access), user, now + ACCESS_TOKEN_TTL, o),
       Finished(if o.Done? then Renewed(access) else Rejected(StoreFailure)))
    case RevokeFind(refresh) =>
      (s, if o.Failed() then Finished(Rejected(StoreFailure))
          else if refresh !in s.rows then Finished(Rejected(NoSession))
          else Continue(RevokeDelete(s.rows[refresh].id, refresh)))
    case RevokeDelete(id, refresh) =>
      (if o.Applied() then s.(rows := WithoutId(s.rows, id)) else s,
       if o.Done? then Continue(RevokeForget(refresh)) else Finished(Rejected(StoreFailure)))
    case RevokeForget(refresh) =>
      (if o.Applied() then s.(cache := s.cache - {RefreshKey(refresh)}) else s, Finished(Revoked))
    case RevokeAllDelete(user) =>
      (if o.Applied() then s.(rows := WithoutUser(s.rows, user)) else s,
       Finished(if o.Done? then Revoked else Rejected(StoreFailure)))
  }

  /** An uninterrupted operation: its store calls in a row at one time, the first of them ending as
      outs[i], the next as outs[i + 1] and so on. */
  function RunCall(s: Stores, now: int, call: Call, outs: seq<Outcome>, i: nat): (Stores, Reply)
    requires |outs| >= i + call.Left()
    decreases call.Left()
  {
    var (s', progress) := StepCall(s, now, call, outs[i]);
    match progress
    case Finished(reply) => (s', reply)
    case Continue(next) => RunCall(s', now, next, outs, i + 1)
  }
}
