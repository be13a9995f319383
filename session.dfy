/** One upload session (session.go): the owner's address, the session's UUID and an
    append-only buffer that is flushed to a file at the end. The file system is a
    map from path to contents; the outcome of os.Create, the buffered write and the
    flush is an abstract input. */
module Sessions {
  import opened Types

  /** What goes wrong, if anything, while writing the buffer out: os.Create fails
      (nothing is touched), or the write or the flush fails after the file was
      created, leaving at most `kept` bytes of the buffer in it. */
  datatype DiskFault = NoFault | CreateFault | WriteFault(kept: nat)

  /** A file system state and the error returned beside it. */
  datatype DiskWrite = DiskWrite(files: map<string, Bytes>, err: Option<Error>)

  /** writeToDisk on the file system `files`: os.Create truncates or creates the
      file at `path`, the buffered writer then writes `buffer` and flushes. */
  function Written(files: map<string, Bytes>, path: string, buffer: Bytes, fault: DiskFault): (r: DiskWrite)
    ensures r.err == None <==> fault.NoFault?
    ensures r.err != None ==> r.err == Some(DiskFailed)
    ensures fault.NoFault? ==> path in r.files && r.files[path] == buffer
    ensures fault.CreateFault? ==> r.files == files
    ensures fault.WriteFault? ==> path in r.files && r.files[path] <= buffer
    ensures forall p :: p != path ==> (p in r.files <==> p in files)
    ensures forall p :: p in files && p != path ==> r.files[p] == files[p]
  {
    match fault
    case NoFault => DiskWrite(files[path := buffer], None)
    case CreateFault => DiskWrite(files, Some(DiskFailed))
    case WriteFault(kept) =>
      DiskWrite(files[path := buffer[..if kept < |buffer| then kept else |buffer|]], Some(DiskFailed))
  }

  /** A successful write replaces whatever an earlier write left at the same path:
      only the last successful write of a path counts. */
  lemma WriteOverwrites(files: map<string, Bytes>, path: string, first: Bytes, second: Bytes, fault: DiskFault)
    ensures Written(Written(files, path, first, fault).files, path, second, NoFault).files ==
            Written(files, path, second, NoFault).files
  {
    var once := Written(files, path, first, fault).files;
    var twice := Written(once, path, second, NoFault).files;
    var direct := Written(files, path, second, NoFault).files;
    assert twice.Keys == direct.Keys;
  }

  /** The file system, shared by every session. */
  class FileStore {
    var files: map<string, Bytes>

    constructor ()
      ensures files == map[]
    {
      files := map[];
    }
  }

  class Session {
    /** Where the buffer is written. newSession never assigns it, so it keeps the
        zero value "" for every session. */
    const storagePath: string
    const remoteClientAddress: RemoteAddress
    const sessionUUID: Uuid
    var fileBuffer: Bytes

    /** newSession: `sessionUUID` stands for the value of uuid.New(); the
        `storagePath` argument is accepted and dropped, as written. */
    constructor (remoteClientAddress: RemoteAddress, storagePath: string, sessionUUID: Uuid)
      ensures this.remoteClientAddress == remoteClientAddress
      ensures this.sessionUUID == sessionUUID
      ensures this.storagePath == ""
      ensures fileBuffer == []
    {
      this.storagePath := "";
      this.remoteClientAddress := remoteClientAddress;
      this.sessionUUID := sessionUUID;
      fileBuffer := [];
    }

    /** appendFileBytes: the chunk goes at the end of the buffer (the buffer's
        Write never returns an error). */
    method AppendFileBytes(fileBytes: Bytes)
      modifies this`fileBuffer
      ensures fileBuffer == old(fileBuffer) + fileBytes
    {
      fileBuffer := fileBuffer + fileBytes;
    }

    /** writeToDisk: flushes the whole buffer to `storagePath`; the buffer itself
        is left as it was. */
    method WriteToDisk(store: FileStore, fault: DiskFault) returns (err: Option<Error>)
      modifies store
      ensures DiskWrite(store.files, err) == Written(old(store.files), storagePath, fileBuffer, fault)
    {
      if fault.CreateFault? {
        return Some(DiskFailed);
      }
      if fault.WriteFault? {
        var kept := if fault.kept < |fileBuffer| then fault.kept else |fileBuffer|;
        store.files := store.files[storagePath := fileBuffer[..kept]];
        return Some(DiskFailed);
      }
      store.files := store.files[storagePath := fileBuffer];
      return None;
    }
  }

  /** Three chunks appended to a new session, in order, then written out without
      a fault: the file holds their concatenation, at the path "". */
  method UploadThree(owner: RemoteAddress, uuid: Uuid, c1: Bytes, c2: Bytes, c3: Bytes)
    returns (buffer: Bytes, file: Option<Bytes>, err: Option<Error>)
    ensures buffer == c1 + c2 + c3
    ensures err == None && file == Some(c1 + c2 + c3)
  {
    var s := new Session(owner, "uploads/files", uuid);
    s.AppendFileBytes(c1);
    s.AppendFileBytes(c2);
    s.AppendFileBytes(c3);
    var store := new FileStore();
    err := s.WriteToDisk(store, NoFault);
    buffer := s.fileBuffer;
    file := if "" in store.files then Some(store.files[""]) else None;
  }
}
