/** The registry of open upload sessions (pool-sesson-manager.go): a map from the
    textual UUID to the session, with no overwrite and no capacity. */
module SessionPool {
  import opened Types
  import opened Sessions

  /** Every session is filed under its own UUID. */
  ghost predicate WellKeyed(pool: map<Uuid, Session>)
  {
    forall u :: u in pool ==> pool[u].sessionUUID == u
  }

  /** A new map and the error returned beside it. */
  datatype SessionChange = SessionChange(pool: map<Uuid, Session>, err: Option<Error>)

  /** push as intended: a UUID that is already pooled is refused and keeps its
      session; a new one is filed and nothing else changes. The rest of the model
      uses this push (see PushedAsWritten for the code as written). */
  function Pushed(pool: map<Uuid, Session>, s: Session): (r: SessionChange)
    ensures s.sessionUUID in pool ==> r == SessionChange(pool, Some(SessionIsExist))
    ensures s.sessionUUID !in pool ==>
              && r.err == None
              && r.pool.Keys == pool.Keys + {s.sessionUUID}
              && r.pool[s.sessionUUID] == s
              && forall u :: u in pool ==> r.pool[u] == pool[u]
    ensures WellKeyed(pool) ==> WellKeyed(r.pool)
  {
    if s.sessionUUID in pool then SessionChange(pool, Some(SessionIsExist))
    else SessionChange(pool[s.sessionUUID := s], None)
  }

  /** delete: a pooled UUID is removed and nothing else; an absent one is an error. */
  function Removed(pool: map<Uuid, Session>, uuid: Uuid): (r: SessionChange)
    ensures uuid !in pool ==> r == SessionChange(pool, Some(SessionNoneExist))
    ensures uuid in pool ==>
              && r.err == None
              && r.pool.Keys == pool.Keys - {uuid}
              && forall u :: u in r.pool ==> r.pool[u] == pool[u]
    ensures WellKeyed(pool) ==> WellKeyed(r.pool)
  {
    if uuid in pool then SessionChange(pool - {uuid}, None)
    else SessionChange(pool, Some(SessionNoneExist))
  }

  /** push as written: the `session` declared in the if statement's initializer
      shadows the parameter in BOTH branches, so on a fresh UUID the else branch
      reads the UUID of a nil session and panics. `None` is that panic; the only
      call that returns is the refusal of a UUID already pooled. */
  function PushedAsWritten(pool: map<Uuid, Session>, s: Session): (r: Option<SessionChange>)
    ensures r.Some? <==> s.sessionUUID in pool
    ensures r.Some? ==> r.value == SessionChange(pool, Some(SessionIsExist))
  {
    if s.sessionUUID in pool then Some(SessionChange(pool, Some(SessionIsExist))) else None
  }

  /** Where push as written and the intended push part: exactly on the fresh UUIDs,
      where the intended push files the session and the written one panics. */
  lemma FreshPushPanics(pool: map<Uuid, Session>, s: Session)
    ensures PushedAsWritten(pool, s).None? <==> Pushed(pool, s).err == None
    ensures PushedAsWritten(pool, s).Some? ==> PushedAsWritten(pool, s).value == Pushed(pool, s)
  {
  }

  /** The pool after pushing `ss` in order with push as written, or `None` once a
      push panics. */
  function PushAllAsWritten(pool: map<Uuid, Session>, ss: seq<Session>): Option<map<Uuid, Session>>
    decreases |ss|
  {
    if ss == [] then Some(pool)
    else
      match PushedAsWritten(pool, ss[0])
      case None => None
      case Some(step) => PushAllAsWritten(step.pool, ss[1..])
  }

  /** As written no push ever adds a session: any run of pushes either panics or
      ends with the pool it started from, so from the empty pool no session is
      ever found and the frame handler never gets past its lookup. */
  lemma {:induction false} AsWrittenNeverPools(pool: map<Uuid, Session>, ss: seq<Session>)
    ensures PushAllAsWritten(pool, ss).Some? ==> PushAllAsWritten(pool, ss).value == pool
    ensures pool == map[] && ss != [] ==> PushAllAsWritten(pool, ss).None?
    decreases |ss|
  {
    if ss != [] && PushedAsWritten(pool, ss[0]).Some? {
      AsWrittenNeverPools(PushedAsWritten(pool, ss[0]).value.pool, ss[1..]);
    }
  }

  /** Deleting the session that was just pushed gives back the pool as it was, and
      the UUID can be pushed again afterwards. */
  lemma DeleteUndoesPush(pool: map<Uuid, Session>, s: Session)
    requires s.sessionUUID !in pool
    ensures Removed(Pushed(pool, s).pool, s.sessionUUID) == SessionChange(pool, None)
    ensures Pushed(Removed(Pushed(pool, s).pool, s.sessionUUID).pool, s).err == None
  {
    var pushed := Pushed(pool, s).pool;
    assert pushed - {s.sessionUUID} == pool;
  }

  /** A second push of the same UUID fails, whichever session carries it, and
      leaves the first session in place. */
  lemma SecondPushRefused(pool: map<Uuid, Session>, s: Session, t: Session)
    requires s.sessionUUID !in pool && t.sessionUUID == s.sessionUUID
    ensures Pushed(Pushed(pool, s).pool, t) == SessionChange(Pushed(pool, s).pool, Some(SessionIsExist))
    ensures Pushed(Pushed(pool, s).pool, t).pool[s.sessionUUID] == s
  {
  }

  class PoolSessionManager {
    var pool: map<Uuid, Session>

    ghost predicate Valid()
      reads this
    {
      WellKeyed(pool)
    }

    /** newPoolSessionManager */
    constructor ()
      ensures Valid() && pool == map[]
    {
      pool := map[];
    }

    /** push, as intended (Pushed) */
    method Push(s: Session) returns (err: Option<Error>)
      requires Valid()
      modifies this
      ensures Valid()
      ensures SessionChange(pool, err) == Pushed(old(pool), s)
    {
      if s.sessionUUID in pool {
        return Some(SessionIsExist);
      }
      pool := pool[s.sessionUUID := s];
      return None;
    }

    /** get: the session filed under the UUID, or SessionNoneExist. */
    method Get(uuid: Uuid) returns (r: Result<Session>)
      ensures uuid in pool ==> r == Ok(pool[uuid])
      ensures uuid !in pool ==> r == Err(SessionNoneExist)
    {
      if uuid in pool {
        return Ok(pool[uuid]);
      }
      return Err(SessionNoneExist);
    }

    /** delete */
    method Delete(uuid: Uuid) returns (err: Option<Error>)
      requires Valid()
      modifies this
      ensures Valid()
      ensures SessionChange(pool, err) == Removed(old(pool), uuid)
    {
      if uuid in pool {
        pool := pool - {uuid};
        return None;
      }
      return Some(SessionNoneExist);
    }
  }

  /** A session is found while it is pooled and no longer found once it has been
      deleted; a second delete fails. */
  method PushGetDelete(owner: RemoteAddress, uuid: Uuid)
    returns (before: Result<Session>, deleted: Option<Error>, after: Result<Session>, again: Option<Error>)
    ensures before.Ok? && before.value.sessionUUID == uuid && before.value.remoteClientAddress == owner
    ensures deleted == None
    ensures after == Err(SessionNoneExist)
    ensures again == Some(SessionNoneExist)
  {
    var sessions := new PoolSessionManager();
    var s := new Session(owner, "", uuid);
    var pushed := sessions.Push(s);
    before := sessions.Get(uuid);
    deleted := sessions.Delete(uuid);
    after := sessions.Get(uuid);
    again := sessions.Delete(uuid);
  }
}
