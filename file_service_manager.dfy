/** The reaction of the file service manager (file-service-manager.go) to the
    events of the file service: which events make it close the sender's
    connection. The three `for event := range` loops are left to their callers;
    each event taken from a channel is one call of React. */
module FileServiceManager {
  import opened Types
  import opened Connection
  import opened ClientPool
  import opened RateLimit
  import opened Streaming
  import opened Sessions
  import opened FileService

  /** The channel an event is taken from. */
  datatype Channel = SessionClosing | SessionOpening | FileFrameReceive

  /** waitCloseSession closes the connection after every closing event, OK or
      not; waitOpenSession and waitFileFrame close it only after a failure. */
  function ShouldClose(channel: Channel, event: Event): (close: bool)
    ensures channel == SessionClosing ==> close
    ensures channel != SessionClosing ==> (close <==> !event.ok)
  {
    match channel
    case SessionClosing => true
    case SessionOpening => !event.ok
    case FileFrameReceive => !event.ok
  }

  /** Every loop logs a failed event with `event.Error.Error()` before it closes
      anything, so a failed event that carries no error (the opening event of a
      handshake with an empty address) dereferences nil and panics. */
  predicate LogPanics(event: Event)
  {
    !event.ok && event.error == None
  }

  /** One event taken from `channel`. A failed event without an error panics in
      the log call and changes nothing; otherwise, when the decision says so, the
      sender of the event is disconnected as by CloseConnectionClient, and the
      engine is left as it was when it does not. */
  method React(engine: Engine, channel: Channel, event: Event) returns (panicked: bool)
    requires engine.Valid()
    modifies engine.poolClients, engine.rateLimiter`clientRequestStatistics
    modifies if event.context.clientRemoteAddress in engine.poolClients.pool
             then {engine.poolClients.pool[event.context.clientRemoteAddress]} else {}
    ensures engine.Valid()
    ensures panicked <==> LogPanics(event)
    ensures panicked || !ShouldClose(channel, event) ==>
              && engine.poolClients.pool == old(engine.poolClients.pool)
              && engine.rateLimiter.clientRequestStatistics == old(engine.rateLimiter.clientRequestStatistics)
    ensures !panicked && ShouldClose(channel, event) ==>
              var address := event.context.clientRemoteAddress;
              && (address in old(engine.poolClients.pool) ==> old(engine.poolClients.pool)[address].connectionIsClosed)
              && engine.poolClients.pool == Deleted(old(engine.poolClients.pool), address).pool
              && engine.rateLimiter.clientRequestStatistics == Stopped(old(engine.rateLimiter.clientRequestStatistics), address)
  {
    if LogPanics(event) {
      return true;
    }
    if ShouldClose(channel, event) {
      engine.CloseConnectionClient(event.context.clientRemoteAddress);
    }
    return false;
  }
}
