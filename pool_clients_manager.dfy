/** The bounded registry of live connections (pool-clients-manager.go): a map from
    remote address to client, with admission refused one client early. */
module ClientPool {
  import opened Types
  import opened Connection

  /** isFilled as written: the pool counts as full as soon as ONE MORE client
      would bring it to `size`, so at most size - 1 clients are ever admitted. */
  predicate Filled(count: int, size: int)
  {
    count + 1 >= size
  }

  /** The largest number of clients a pool of the given size can hold. */
  function Capacity(size: int): nat
  {
    if size >= 1 then size - 1 else 0
  }

  /** Every client is filed under its own address. */
  ghost predicate WellKeyed(pool: map<RemoteAddress, Client>)
  {
    forall a :: a in pool ==> pool[a].address == a
  }

  /** A new map and the error returned beside it. */
  datatype PoolChange = PoolChange(pool: map<RemoteAddress, Client>, err: Option<Error>)

  /** push: the fill check comes first, then the nil and empty-address checks;
      a successful push files the client under its address, replacing any client
      already filed there. */
  function Pushed(pool: map<RemoteAddress, Client>, size: int, c: Client?): (r: PoolChange)
    ensures Filled(|pool|, size) ==> r == PoolChange(pool, Some(PoolClientIsFilled))
    ensures !Filled(|pool|, size) && (c == null || c.address == "") ==>
              r == PoolChange(pool, Some(ClientObjectIsNil))
    ensures r.err == None <==> !Filled(|pool|, size) && c != null && c.address != ""
    ensures r.err == None ==>
              && c != null && c.address in r.pool && r.pool[c.address] == c
              && r.pool.Keys == pool.Keys + {c.address}
              && forall a :: a in pool && a != c.address ==> r.pool[a] == pool[a]
    ensures |pool| <= Capacity(size) ==> |r.pool| <= Capacity(size)
    ensures WellKeyed(pool) ==> WellKeyed(r.pool)
  {
    if Filled(|pool|, size) then PoolChange(pool, Some(PoolClientIsFilled))
    else if c == null then PoolChange(pool, Some(ClientObjectIsNil))
    else if c.address == "" then PoolChange(pool, Some(ClientObjectIsNil))
    else
      var r := pool[c.address := c];
      assert |r.Keys| <= |pool.Keys| + 1 by {
        assert r.Keys == pool.Keys + {c.address};
      }
      PoolChange(r, None)
  }

  /** delete: removes a present address and nothing else; an absent one is an error. */
  function Deleted(pool: map<RemoteAddress, Client>, address: RemoteAddress): (r: PoolChange)
    ensures address !in pool ==> r == PoolChange(pool, Some(ClientObjectIsNil))
    ensures address in pool ==>
              && r.err == None
              && r.pool.Keys == pool.Keys - {address}
              && |r.pool| == |pool| - 1
              && forall a :: a in r.pool ==> r.pool[a] == pool[a]
  {
    if address !in pool then PoolChange(pool, Some(ClientObjectIsNil))
    else
      var r := pool - {address};
      assert |r.Keys| == |pool.Keys| - 1 by {
        assert r.Keys == pool.Keys - {address};
      }
      PoolChange(r, None)
  }

  /** One call of push or delete. */
  datatype PoolOp = Push(client: Client?) | Delete(address: RemoteAddress)

  /** The pool after running `ops` in order, whatever each call returned. */
  function Run(pool: map<RemoteAddress, Client>, size: int, ops: seq<PoolOp>): map<RemoteAddress, Client>
    decreases |ops|
  {
    if ops == [] then pool
    else
      var next := match ops[0]
        case Push(c) => Pushed(pool, size, c).pool
        case Delete(a) => Deleted(pool, a).pool;
      Run(next, size, ops[1..])
  }

  /** Starting from any pool within the capacity (the empty one in particular), no
      sequence of push and delete calls takes it beyond size - 1 clients, and every
      client stays filed under its own address. */
  lemma {:induction false} RunStaysBounded(pool: map<RemoteAddress, Client>, size: int, ops: seq<PoolOp>)
    requires |pool| <= Capacity(size) && WellKeyed(pool)
    ensures |Run(pool, size, ops)| <= Capacity(size)
    ensures WellKeyed(Run(pool, size, ops))
    decreases |ops|
  {
    if ops != [] {
      var next := match ops[0]
        case Push(c) => Pushed(pool, size, c).pool
        case Delete(a) => Deleted(pool, a).pool;
      RunStaysBounded(next, size, ops[1..]);
    }
  }

  /** The errors returned when the clients `cs` are pushed one after another. */
  function Admit(pool: map<RemoteAddress, Client>, size: int, cs: seq<Client>): (errs: seq<Option<Error>>)
    ensures |errs| == |cs|
    decreases |cs|
  {
    if cs == [] then []
    else
      var step := Pushed(pool, size, cs[0]);
      [step.err] + Admit(step.pool, size, cs[1..])
  }

  /** Clients with distinct, non-empty addresses none of which is pooled yet. */
  ghost predicate Newcomers(pool: map<RemoteAddress, Client>, cs: seq<Client>)
  {
    && (forall i :: 0 <= i < |cs| ==> cs[i].address != "" && cs[i].address !in pool)
    && (forall i, j :: 0 <= i < j < |cs| ==> cs[i].address != cs[j].address)
  }

  /** Pushing the first newcomer: the others are still newcomers, and the pool
      grows by one exactly when it has room. */
  lemma PushNewcomer(pool: map<RemoteAddress, Client>, size: int, cs: seq<Client>)
    requires |pool| <= Capacity(size) && Newcomers(pool, cs) && cs != []
    ensures Newcomers(Pushed(pool, size, cs[0]).pool, cs[1..])
    ensures |Pushed(pool, size, cs[0]).pool| == if |pool| < Capacity(size) then |pool| + 1 else |pool|
  {
    var step := Pushed(pool, size, cs[0]);
    forall k | 0 <= k < |cs[1..]|
      ensures cs[1..][k].address != "" && cs[1..][k].address !in step.pool
    {
      assert cs[1..][k] == cs[k + 1];
    }
  }

  /** The i-th of the newcomers pushed one by one is admitted exactly when the
      pool still has room for it; otherwise it is refused as PoolClientIsFilled. */
  lemma {:induction false} AdmitAt(pool: map<RemoteAddress, Client>, size: int, cs: seq<Client>, i: nat)
    requires |pool| <= Capacity(size) && Newcomers(pool, cs) && i < |cs|
    ensures Admit(pool, size, cs)[i] == None <==> |pool| + i < Capacity(size)
    ensures Admit(pool, size, cs)[i] != None ==> Admit(pool, size, cs)[i] == Some(PoolClientIsFilled)
    decreases i
  {
    if i > 0 {
      var step := Pushed(pool, size, cs[0]);
      PushNewcomer(pool, size, cs);
      AdmitAt(step.pool, size, cs[1..], i - 1);
      assert Admit(pool, size, cs)[i] == Admit(step.pool, size, cs[1..])[i - 1];
    }
  }

  /** Admitting distinct well-formed clients one by one: the i-th succeeds exactly
      when the pool still has room for it below size - 1, and every refusal is
      PoolClientIsFilled. From the empty pool, the first size - 1 are admitted. */
  lemma AdmitFillsToCapacity(pool: map<RemoteAddress, Client>, size: int, cs: seq<Client>)
    requires |pool| <= Capacity(size) && Newcomers(pool, cs)
    ensures forall i :: 0 <= i < |cs| ==>
              && (Admit(pool, size, cs)[i] == None <==> |pool| + i < Capacity(size))
              && (Admit(pool, size, cs)[i] != None ==> Admit(pool, size, cs)[i] == Some(PoolClientIsFilled))
  {
    forall i | 0 <= i < |cs|
      ensures && (Admit(pool, size, cs)[i] == None <==> |pool| + i < Capacity(size))
              && (Admit(pool, size, cs)[i] != None ==> Admit(pool, size, cs)[i] == Some(PoolClientIsFilled))
    {
      AdmitAt(pool, size, cs, i);
    }
  }

  /** A full pool admits a new client again once one client has been deleted. */
  lemma AdmitAfterDelete(pool: map<RemoteAddress, Client>, size: int, gone: RemoteAddress, c: Client)
    requires |pool| == Capacity(size) && gone in pool && c.address != ""
    ensures Filled(|pool|, size)
    ensures Pushed(Deleted(pool, gone).pool, size, c).err == None
  {
  }

  class PoolClients {
    const size: int
    var pool: map<RemoteAddress, Client>

    ghost predicate Valid()
      reads this
    {
      |pool| <= Capacity(size) && WellKeyed(pool)
    }

    constructor (size: int)
      ensures Valid() && this.size == size && pool == map[]
    {
      this.size := size;
      pool := map[];
    }

    /** length */
    method Length() returns (n: nat)
      ensures n == |pool|
    {
      n := |pool|;
    }

    /** isFilled: true exactly when admitting one more client would reach `size`. */
    method IsFilled() returns (filled: bool)
      ensures filled <==> |pool| + 1 >= size
    {
      var n := Length();
      if n + 1 >= size {
        return true;
      }
      return false;
    }

    /** push */
    method Push(c: Client?) returns (err: Option<Error>)
      requires Valid()
      modifies this
      ensures Valid()
      ensures PoolChange(pool, err) == Pushed(old(pool), size, c)
    {
      var filled := IsFilled();
      if filled {
        return Some(PoolClientIsFilled);
      }
      if c == null {
        return Some(ClientObjectIsNil);
      }
      if c.address == "" {
        return Some(ClientObjectIsNil);
      }
      pool := pool[c.address := c];
      return None;
    }

    /** Get: the client filed under the address, or ClientObjectIsNil. */
    method Get(address: RemoteAddress) returns (r: Result<Client>)
      ensures address in pool ==> r == Ok(pool[address])
      ensures address !in pool ==> r == Err(ClientObjectIsNil)
    {
      if address !in pool {
        return Err(ClientObjectIsNil);
      }
      return Ok(pool[address]);
    }

    /** delete */
    method Delete(address: RemoteAddress) returns (err: Option<Error>)
      requires Valid()
      modifies this
      ensures Valid()
      ensures PoolChange(pool, err) == Deleted(old(pool), address)
    {
      if address !in pool {
        return Some(ClientObjectIsNil);
      }
      pool := pool - {address};
      return None;
    }
  }
}
