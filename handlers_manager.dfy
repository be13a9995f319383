/** The handler registry (handlers-manager.go): a map from URI to handler in which
    the first registration of a URI wins and nothing is ever removed. */
module Handlers {
  import opened Types

  /** A handler, by identity: the registry only stores it and hands it back. */
  datatype Handler = Handler(name: string)

  /** registerHandler: a URI that already has a handler keeps it; a new URI is
      added and nothing else changes. */
  function Registered(handlers: map<URI, Handler>, uri: URI, h: Handler): (r: map<URI, Handler>)
    ensures uri in handlers ==> r == handlers
    ensures uri !in handlers ==> uri in r && r[uri] == h
    ensures r.Keys == handlers.Keys + {uri}
    ensures forall u :: u in handlers ==> r[u] == handlers[u]
  {
    if uri in handlers then handlers else handlers[uri := h]
  }

  /** The registry after the registrations `regs`, made in order. */
  function RegisterAll(handlers: map<URI, Handler>, regs: seq<(URI, Handler)>): map<URI, Handler>
    decreases |regs|
  {
    if regs == [] then handlers else RegisterAll(Registered(handlers, regs[0].0, regs[0].1), regs[1..])
  }

  /** The handler of the first registration of `uri` in `regs`, if there is one. */
  function FirstFor(regs: seq<(URI, Handler)>, uri: URI): Option<Handler>
    decreases |regs|
  {
    if regs == [] then None
    else if regs[0].0 == uri then Some(regs[0].1)
    else FirstFor(regs[1..], uri)
  }

  /** Whatever is registered later, a URI keeps the handler it had, and an
      unregistered URI ends up with the handler of its FIRST registration. The set
      of registered URIs only grows. */
  lemma {:induction false} FirstRegistrationWins(handlers: map<URI, Handler>, regs: seq<(URI, Handler)>, uri: URI)
    ensures handlers.Keys <= RegisterAll(handlers, regs).Keys
    ensures uri in handlers ==> RegisterAll(handlers, regs)[uri] == handlers[uri]
    ensures uri !in handlers ==>
              && (uri in RegisterAll(handlers, regs) <==> FirstFor(regs, uri).Some?)
              && (FirstFor(regs, uri).Some? ==> RegisterAll(handlers, regs)[uri] == FirstFor(regs, uri).value)
    decreases |regs|
  {
    if regs != [] {
      FirstRegistrationWins(Registered(handlers, regs[0].0, regs[0].1), regs[1..], uri);
    }
  }

  class HandlersManager {
    var handlers: map<URI, Handler>

    constructor ()
      ensures handlers == map[]
    {
      handlers := map[];
    }

    /** registerHandler */
    method RegisterHandler(uri: URI, h: Handler)
      modifies this
      ensures handlers == Registered(old(handlers), uri, h)
    {
      if uri in handlers {
        return;
      }
      handlers := handlers[uri := h];
    }

    /** getHandler: the registered handler, or HandlerIsntExist. */
    method GetHandler(uri: URI) returns (r: Result<Handler>)
      ensures uri in handlers ==> r == Ok(handlers[uri])
      ensures uri !in handlers ==> r == Err(HandlerIsntExist)
    {
      if uri !in handlers {
        return Err(HandlerIsntExist);
      }
      return Ok(handlers[uri]);
    }
  }

  /** Registering h1 and then h2 for the same URI: looking the URI up gives h1. */
  method RegisterTwice(uri: URI, h1: Handler, h2: Handler) returns (r: Result<Handler>)
    ensures r == Ok(h1)
  {
    var registry := new HandlersManager();
    registry.RegisterHandler(uri, h1);
    registry.RegisterHandler(uri, h2);
    r := registry.GetHandler(uri);
  }
}
