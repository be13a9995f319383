/** The streaming engine (engine.go): admission of new connections, routing of
    each inbound frame to the handler of its URI, and closing or evicting a
    connection. The websocket upgrade and the protobuf decoding of the envelope are
    abstract inputs; invoking the handler is returned as a value. */
module Streaming {
  import opened Types
  import opened Connection
  import opened ClientPool
  import opened Handlers
  import opened RateLimit

  /** The outcome of the websocket upgrade: the connection's remote address, or
      the upgrader's error. */
  datatype Upgrade = Upgraded(remoteAddress: RemoteAddress) | UpgradeRefused

  /** A decoded envelope: the handler's URI and its payload. */
  datatype Request = Request(uri: URI, frame: Bytes)

  /** A call of a handler with its context. */
  datatype Invocation = Invocation(handler: Handler, context: Context)

  /** The handler call a frame leads to, once its hit has been counted: none when
      the envelope does not decode or its URI has no handler; otherwise the URI's
      handler, given the sender and the raw frame exactly as it was received. */
  function Dispatched(handlers: map<URI, Handler>, address: RemoteAddress, message: Bytes, decoded: Option<Request>): (r: Option<Invocation>)
    ensures r.Some? <==> decoded.Some? && decoded.value.uri in handlers
    ensures r.Some? ==> r.value.handler == handlers[decoded.value.uri]
    ensures r.Some? ==> r.value.context == Context(address, message, None)
  {
    match decoded
    case None => None
    case Some(request) =>
      if request.uri !in handlers then None
      else Some(Invocation(handlers[request.uri], Context(address, message, None)))
  }

  /** The registrations of a dispatch chain decide every later dispatch: a frame
      for `uri` reaches the handler FIRST registered for it, and only when there
      is one. */
  lemma DispatchUsesFirstRegistration(regs: seq<(URI, Handler)>, uri: URI, address: RemoteAddress, message: Bytes, frame: Bytes)
    ensures Dispatched(RegisterAll(map[], regs), address, message, Some(Request(uri, frame))) ==
              match FirstFor(regs, uri)
              case None => None
              case Some(h) => Some(Invocation(h, Context(address, message, None)))
  {
    FirstRegistrationWins(map[], regs, uri);
  }

  class Engine {
    const poolClients: PoolClients
    const poolHandlers: HandlersManager
    const rateLimiter: RateLimiter
    /** Every client object the engine has admitted, pooled or not any more. */
    ghost var clients: set<Client>

    /** The pool is within its capacity, every client is filed under its own
        address, exactly the pooled addresses have a request counter, and no
        counter is negative. */
    ghost predicate Valid()
      reads this, poolClients, rateLimiter
    {
      && poolClients.Valid()
      && poolClients.pool.Keys == rateLimiter.clientRequestStatistics.Keys
      && rateLimiter.Valid()
      && forall a :: a in poolClients.pool ==> poolClients.pool[a] in clients
    }

    /** NewEngine (the background goroutines are left out). */
    constructor (poolSizeClients: int, rateLimitPerSecond: int)
      ensures Valid()
      ensures fresh(poolClients) && fresh(poolHandlers) && fresh(rateLimiter)
      ensures poolClients.size == poolSizeClients && poolClients.pool == map[]
      ensures poolHandlers.handlers == map[]
      ensures rateLimiter.rateLimitPerSecond == rateLimitPerSecond
      ensures rateLimiter.clientRequestStatistics == map[] && rateLimiter.closeEvents == []
    {
      poolClients := new PoolClients(poolSizeClients);
      poolHandlers := new HandlersManager();
      rateLimiter := new RateLimiter(rateLimitPerSecond);
      clients := {};
    }

    /** Handle */
    method Handle(uri: URI, h: Handler)
      modifies poolHandlers
      ensures poolHandlers.handlers == Registered(old(poolHandlers.handlers), uri, h)
    {
      poolHandlers.RegisterHandler(uri, h);
    }

    /** SendMessageClient: an unknown address is ClientObjectIsNil; otherwise the
        client's own send decides (and, as written, only writes to a CLOSED one). */
    method SendMessageClient(address: RemoteAddress, message: Bytes, writeFails: bool) returns (err: Option<Error>)
      requires Valid()
      modifies poolClients.pool.Values
      ensures Valid()
      ensures address !in poolClients.pool ==> err == Some(ClientObjectIsNil)
      ensures forall a :: a in poolClients.pool && a != address ==> unchanged(poolClients.pool[a])
      ensures address in poolClients.pool ==>
                var c := poolClients.pool[address];
                && c.connectionIsClosed == old(c.connectionIsClosed)
                && (!c.connectionIsClosed ==> err == None && c.written == old(c.written))
                && (c.connectionIsClosed && writeFails ==> err == Some(WriteFailed) && c.written == old(c.written))
                && (c.connectionIsClosed && !writeFails ==> err == None && c.written == old(c.written) + [message])
    {
      var found := poolClients.Get(address);
      if found.Err? {
        return Some(found.error);
      }
      var c := found.value;
      err := c.SendMessage(message, writeFails);
    }

    /** NewClient: the fill check comes first, then the upgrade, then the push,
        and only then the request counter; any failure leaves no state behind. */
    method NewClient(upgrade: Upgrade) returns (address: RemoteAddress, err: Option<Error>)
      requires Valid()
      modifies this`clients, poolClients, rateLimiter`clientRequestStatistics
      ensures Valid()
      ensures Filled(|old(poolClients.pool)|, poolClients.size) ==> err == Some(PoolClientIsFilled)
      ensures !Filled(|old(poolClients.pool)|, poolClients.size) && upgrade.UpgradeRefused? ==>
                err == Some(UpgradeFailed)
      ensures !Filled(|old(poolClients.pool)|, poolClients.size) && upgrade == Upgraded("") ==>
                err == Some(ClientObjectIsNil)
      ensures err == None <==>
                !Filled(|old(poolClients.pool)|, poolClients.size) && upgrade.Upgraded? && upgrade.remoteAddress != ""
      ensures err != None ==>
                && address == ""
                && poolClients.pool == old(poolClients.pool)
                && rateLimiter.clientRequestStatistics == old(rateLimiter.clientRequestStatistics)
      ensures err == None ==>
                && address == upgrade.remoteAddress
                && address in poolClients.pool
                && fresh(poolClients.pool[address])
                && !poolClients.pool[address].connectionIsClosed
                && poolClients.pool[address].written == []
                && poolClients.pool.Keys == old(poolClients.pool).Keys + {address}
                && (forall a :: a in old(poolClients.pool) && a != address ==> poolClients.pool[a] == old(poolClients.pool)[a])
                && rateLimiter.clientRequestStatistics == Started(old(rateLimiter.clientRequestStatistics), address)
    {
      var filled := poolClients.IsFilled();
      if filled {
        return "", Some(PoolClientIsFilled);
      }
      if upgrade.UpgradeRefused? {
        return "", Some(UpgradeFailed);
      }
      var c := new Client(upgrade.remoteAddress);
      err := poolClients.Push(c);
      if err != None {
        return "", err;
      }
      rateLimiter.StartNewClientStatistic(c.address);
      clients := clients + {c};
      // go client.receiveMessage(): the read loop runs on its own (Client.ReceiveMessage)
      return c.address, None;
    }

    /** CloseConnectionClient: an unknown address changes nothing; a known one is
        closed, dropped from the pool and loses its request counter. The frame
        says that no other client object is touched. */
    method CloseConnectionClient(address: RemoteAddress)
      requires Valid()
      modifies poolClients, rateLimiter`clientRequestStatistics
      modifies if address in poolClients.pool then {poolClients.pool[address]} else {}
      ensures Valid()
      ensures forall c: Client :: old(allocated(c)) && old(c.connectionIsClosed) ==> c.connectionIsClosed
      ensures address in old(poolClients.pool) ==> old(poolClients.pool)[address].connectionIsClosed
      ensures poolClients.pool == Deleted(old(poolClients.pool), address).pool
      ensures rateLimiter.clientRequestStatistics == Stopped(old(rateLimiter.clientRequestStatistics), address)
    {
      var found := poolClients.Get(address);
      if found.Err? {
        return;
      }
      var c := found.value;
      c.CloseConnection();
      var err := poolClients.Delete(c.address);
      if err != None {
        return;
      }
      rateLimiter.DeleteClientStatistic(address);
    }

    /** redirectMessageToHandler: the hit is counted BEFORE decoding, so frames that
        do not decode still count against the rate limit. */
    method RedirectMessageToHandler(address: RemoteAddress, message: Bytes, decoded: Option<Request>)
      returns (invoked: Option<Invocation>)
      requires Valid()
      modifies rateLimiter`clientRequestStatistics
      ensures Valid()
      ensures rateLimiter.clientRequestStatistics == Hit(old(rateLimiter.clientRequestStatistics), address)
      ensures invoked == Dispatched(poolHandlers.handlers, address, message, decoded)
    {
      rateLimiter.UpdateClientStatistic(address);
      if decoded.None? {
        return None;
      }
      var found := poolHandlers.GetHandler(decoded.value.uri);
      if found.Err? {
        return None;
      }
      return Some(Invocation(found.value, Context(address, message, None)));
    }

    /** One turn of the loop of waitRateLimiterEvents: receive the oldest queued
        address, if any; an address that is no longer pooled is skipped, a pooled
        one is closed and removed from the pool (the error of delete is ignored)
        and from the limiter. */
    method EvictNext() returns (taken: Option<RemoteAddress>)
      requires Valid()
      modifies poolClients, rateLimiter`closeEvents, rateLimiter`clientRequestStatistics
      modifies if rateLimiter.closeEvents != [] && rateLimiter.closeEvents[0] in poolClients.pool
               then {poolClients.pool[rateLimiter.closeEvents[0]]} else {}
      ensures Valid()
      ensures forall c: Client :: old(allocated(c)) && old(c.connectionIsClosed) ==> c.connectionIsClosed
      ensures old(rateLimiter.closeEvents) == [] ==>
                && taken == None && rateLimiter.closeEvents == []
                && poolClients.pool == old(poolClients.pool)
                && rateLimiter.clientRequestStatistics == old(rateLimiter.clientRequestStatistics)
      ensures old(rateLimiter.closeEvents) != [] ==>
                && taken == Some(old(rateLimiter.closeEvents)[0])
                && rateLimiter.closeEvents == old(rateLimiter.closeEvents)[1..]
                && (taken.value in old(poolClients.pool) ==> old(poolClients.pool)[taken.value].connectionIsClosed)
                && poolClients.pool == Deleted(old(poolClients.pool), taken.value).pool
                && rateLimiter.clientRequestStatistics == Stopped(old(rateLimiter.clientRequestStatistics), taken.value)
    {
      taken := rateLimiter.TakeCloseEvent();
      if taken.None? {
        return;
      }
      var found := poolClients.Get(taken.value);
      if found.Err? {
        return;
      }
      found.value.CloseConnection();
      var err := poolClients.Delete(taken.value);
      rateLimiter.DeleteClientStatistic(taken.value);
    }

    /** waitRateLimiterEvents, up to the point where the eviction channel is empty:
        every queued address that is still pooled is closed and removed from the pool
        and from the limiter (an address queued twice is skipped the second time). */
    method WaitRateLimiterEvents()
      requires Valid()
      modifies poolClients, rateLimiter, clients
      ensures Valid()
      ensures rateLimiter.closeEvents == []
      ensures forall a :: a in poolClients.pool <==> a in old(poolClients.pool) && a !in old(rateLimiter.closeEvents)
      ensures forall a :: a in poolClients.pool ==> poolClients.pool[a] == old(poolClients.pool)[a]
      ensures forall a :: a in rateLimiter.clientRequestStatistics ==>
                rateLimiter.clientRequestStatistics[a] == old(rateLimiter.clientRequestStatistics)[a]
      ensures forall a :: a in old(poolClients.pool) && a in old(rateLimiter.closeEvents) ==>
                old(poolClients.pool)[a].connectionIsClosed
    {
      ghost var queue := rateLimiter.closeEvents;
      ghost var k := 0;
      while true
        invariant Valid()
        invariant 0 <= k <= |queue| && rateLimiter.closeEvents == queue[k..]
        invariant forall a :: a in poolClients.pool <==> a in old(poolClients.pool) && a !in queue[..k]
        invariant forall a :: a in poolClients.pool ==> poolClients.pool[a] == old(poolClients.pool)[a]
        invariant forall a :: a in rateLimiter.clientRequestStatistics ==>
                    rateLimiter.clientRequestStatistics[a] == old(rateLimiter.clientRequestStatistics)[a]
        invariant forall a :: a in old(poolClients.pool) && a in queue[..k] ==> old(poolClients.pool)[a].connectionIsClosed
        decreases |queue| - k
      {
        assert k < |queue| ==> queue[..k + 1] == queue[..k] + [queue[k]];
        var taken := EvictNext();
        if taken.None? {
          break;
        }
        k := k + 1;
      }
      assert queue[..k] == queue;
    }
  }
}
