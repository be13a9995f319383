/** The file service (service.go): the handshake that opens an upload session and
    the handler that receives the file in chunks. Each call of a handler emits
    exactly one event on one of three channels, modelled as sequences the handler
    appends to. Protobuf decoding, uuid.New and the disk outcome are inputs. */
module FileService {
  import opened Types
  import opened ClientPool
  import opened Streaming
  import opened Sessions
  import opened SessionPool

  /** A decoded HandshakeRequest. */
  datatype Handshake = Handshake(remoteAddress: RemoteAddress)

  /** A decoded FileStreamingRequest. */
  datatype FileFrame = FileFrame(sessionUuid: Uuid, streamingFrame: Bytes, lastFrame: bool)

  /** What a handler reports to the manager: the context it was called with, the
      verdict and the error (if any). */
  datatype Event = Event(context: Context, ok: bool, error: Option<Error>)

  /** strings.Join: the parts with `sep` between each two neighbours; the
      handshake joins the root and the storage directory into root + "/" + dir,
      which newSession then drops. */
  function Join(parts: seq<string>, sep: string): string
    decreases |parts|
  {
    if parts == [] then ""
    else if |parts| == 1 then parts[0]
    else parts[0] + sep + Join(parts[1..], sep)
  }

  class Service {
    const websocketEngine: Engine
    const poolSession: PoolSessionManager
    /** The file system that finished uploads are written to. */
    const disk: FileStore
    const rootPath: string
    const storagePath: string
    var sessionOpeningEvents: seq<Event>
    var sessionClosingEvents: seq<Event>
    var fileFrameReceiveEvents: seq<Event>

    /** Every pooled session is filed under its UUID and, being made by
        newSession, writes to the path "". */
    ghost predicate Valid()
      reads poolSession
    {
      && poolSession.Valid()
      && forall u :: u in poolSession.pool ==> poolSession.pool[u].storagePath == ""
    }

    /** NewService */
    constructor (websocketEngine: Engine, disk: FileStore, rootPath: string, storagePath: string)
      ensures Valid()
      ensures this.websocketEngine == websocketEngine && this.disk == disk
      ensures this.rootPath == rootPath && this.storagePath == storagePath
      ensures fresh(poolSession) && poolSession.pool == map[]
      ensures sessionOpeningEvents == [] && sessionClosingEvents == [] && fileFrameReceiveEvents == []
    {
      this.websocketEngine := websocketEngine;
      poolSession := new PoolSessionManager();
      this.disk := disk;
      this.rootPath := rootPath;
      this.storagePath := storagePath;
      sessionOpeningEvents := [];
      sessionClosingEvents := [];
      fileFrameReceiveEvents := [];
    }

    /** HandleOpenSession: `decoded` is the outcome of decoding the frame as a
        handshake and `uuid` the value uuid.New() gives the new session. A failed
        decode, an empty address, an address with no pooled connection and a UUID
        already in use each give a failed event and leave the sessions alone; the
        empty address is the one failure reported with no error. Otherwise a new,
        empty session owned by that address is pooled under `uuid`. */
    method HandleOpenSession(context: Context, decoded: Option<Handshake>, uuid: Uuid) returns (event: Event)
      requires Valid()
      modifies poolSession, this`sessionOpeningEvents
      ensures Valid()
      ensures sessionOpeningEvents == old(sessionOpeningEvents) + [event]
      ensures sessionClosingEvents == old(sessionClosingEvents) && fileFrameReceiveEvents == old(fileFrameReceiveEvents)
      ensures event.context == context
      ensures decoded.None? ==> event == Event(context, false, Some(DecodeFailed))
      ensures decoded == Some(Handshake("")) ==> event == Event(context, false, None)
      ensures decoded.Some? && decoded.value.remoteAddress != "" && decoded.value.remoteAddress !in websocketEngine.poolClients.pool ==>
                event == Event(context, false, Some(ClientObjectIsNil))
      ensures decoded.Some? && decoded.value.remoteAddress != "" && decoded.value.remoteAddress in websocketEngine.poolClients.pool
              && uuid in old(poolSession.pool) ==>
                event == Event(context, false, Some(SessionIsExist))
      ensures event.ok <==>
                && decoded.Some? && decoded.value.remoteAddress != ""
                && decoded.value.remoteAddress in websocketEngine.poolClients.pool
                && uuid !in old(poolSession.pool)
      ensures !event.ok ==> poolSession.pool == old(poolSession.pool)
      ensures event.ok ==>
                && event.error == None
                && poolSession.pool.Keys == old(poolSession.pool).Keys + {uuid}
                && fresh(poolSession.pool[uuid])
                && poolSession.pool[uuid].remoteClientAddress == decoded.value.remoteAddress
                && poolSession.pool[uuid].fileBuffer == []
                && forall u :: u in old(poolSession.pool) ==> poolSession.pool[u] == old(poolSession.pool)[u]
    {
      if decoded.None? {
        event := Event(context, false, Some(DecodeFailed));
        sessionOpeningEvents := sessionOpeningEvents + [event];
        return;
      }
      var handshake := decoded.value;
      if handshake.remoteAddress == "" {
        // the decode succeeded, so the error beside the event is nil
        event := Event(context, false, None);
        sessionOpeningEvents := sessionOpeningEvents + [event];
        return;
      }
      var websocketClient := websocketEngine.poolClients.Get(handshake.remoteAddress);
      if websocketClient.Err? {
        event := Event(context, false, Some(websocketClient.error));
        sessionOpeningEvents := sessionOpeningEvents + [event];
        return;
      }
      var session := new Session(handshake.remoteAddress, Join([rootPath, storagePath], "/"), uuid);
      var err := poolSession.Push(session);
      if err != None {
        event := Event(context, false, err);
        sessionOpeningEvents := sessionOpeningEvents + [event];
        return;
      }
      event := Event(context, true, None);
      sessionOpeningEvents := sessionOpeningEvents + [event];
    }

    /** HandleReceivingFileFrames: `decoded` is the outcome of decoding the frame
        and `fault` that of writing the file. A failed decode or an unknown session
        gives a failed frame event and changes nothing else. Otherwise the chunk is
        appended to its session; a chunk that is not the last gives an OK frame
        event. The last chunk writes the buffer to the session's path, then deletes
        the session whatever the write gave, and the closing event is OK as soon
        as the delete succeeds: a failed disk write is not reported. */
    method HandleReceivingFileFrames(context: Context, decoded: Option<FileFrame>, fault: DiskFault) returns (event: Event)
      requires Valid()
      modifies poolSession, disk, this`sessionClosingEvents, this`fileFrameReceiveEvents
      modifies if decoded.Some? && decoded.value.sessionUuid in poolSession.pool
               then {poolSession.pool[decoded.value.sessionUuid]} else {}
      ensures Valid()
      ensures sessionOpeningEvents == old(sessionOpeningEvents)
      ensures event.context == context
      ensures decoded.None? ==> event == Event(context, false, Some(DecodeFailed))
      ensures decoded.Some? && decoded.value.sessionUuid !in old(poolSession.pool) ==>
                event == Event(context, false, Some(SessionNoneExist))
      ensures !event.ok ==>
                && fileFrameReceiveEvents == old(fileFrameReceiveEvents) + [event]
                && sessionClosingEvents == old(sessionClosingEvents)
                && poolSession.pool == old(poolSession.pool)
                && disk.files == old(disk.files)
      ensures event.ok <==> decoded.Some? && decoded.value.sessionUuid in old(poolSession.pool)
      ensures event.ok ==>
                var frame := decoded.value;
                var session := old(poolSession.pool)[frame.sessionUuid];
                && event.error == None
                && session.fileBuffer == old(session.fileBuffer) + frame.streamingFrame
                && (!frame.lastFrame ==>
                      && fileFrameReceiveEvents == old(fileFrameReceiveEvents) + [event]
                      && sessionClosingEvents == old(sessionClosingEvents)
                      && poolSession.pool == old(poolSession.pool)
                      && disk.files == old(disk.files))
                && (frame.lastFrame ==>
                      && sessionClosingEvents == old(sessionClosingEvents) + [event]
                      && fileFrameReceiveEvents == old(fileFrameReceiveEvents)
                      && poolSession.pool == Removed(old(poolSession.pool), frame.sessionUuid).pool
                      && disk.files == Written(old(disk.files), "", session.fileBuffer, fault).files)
    {
      if decoded.None? {
        event := Event(context, false, Some(DecodeFailed));
        fileFrameReceiveEvents := fileFrameReceiveEvents + [event];
        return;
      }
      var fileFrame := decoded.value;
      var found := poolSession.Get(fileFrame.sessionUuid);
      if found.Err? {
        event := Event(context, false, Some(found.error));
        fileFrameReceiveEvents := fileFrameReceiveEvents + [event];
        return;
      }
      var session := found.value;
      session.AppendFileBytes(fileFrame.streamingFrame);
      if fileFrame.lastFrame {
        // the error of writeToDisk is only logged
        var diskErr := session.WriteToDisk(disk, fault);
        var err := poolSession.Delete(fileFrame.sessionUuid);
        event := Event(context, err == None, err);
        sessionClosingEvents := sessionClosingEvents + [event];
        return;
      }
      event := Event(context, true, None);
      fileFrameReceiveEvents := fileFrameReceiveEvents + [event];
    }
  }
}
