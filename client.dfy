/** One websocket connection (client.go): the monotonic closed flag, the inverted
    send guard and the read loop. The transport itself is abstract: a count of the
    calls to its Close, the list of messages handed to its write, and a sequence of
    read results given to the read loop. */
module Connection {
  import opened Types

  /** The outcome of one blocking read of the websocket. */
  datatype ReadResult = Received(message: Bytes) | ReadFailed

  /** Index of the first failed read, or |incoming| when every read succeeds. */
  function FirstFailure(incoming: seq<ReadResult>): (k: nat)
    ensures k <= |incoming|
    ensures forall j :: 0 <= j < k ==> incoming[j].Received?
    ensures k < |incoming| ==> incoming[k].ReadFailed?
  {
    if incoming == [] || incoming[0].ReadFailed? then 0 else 1 + FirstFailure(incoming[1..])
  }

  /** The messages a read loop started on an open connection hands to its callback. */
  function Forwarded(incoming: seq<ReadResult>): seq<Bytes>
  {
    if incoming == [] || incoming[0].ReadFailed? then [] else [incoming[0].message] + Forwarded(incoming[1..])
  }

  /** The loop forwards exactly the successful reads before the first failure, each
      one once and in read order. */
  lemma {:induction false} ForwardedIsReadPrefix(incoming: seq<ReadResult>)
    ensures |Forwarded(incoming)| == FirstFailure(incoming)
    ensures forall j :: 0 <= j < FirstFailure(incoming) ==> Forwarded(incoming)[j] == incoming[j].message
  {
    if incoming != [] && incoming[0].Received? {
      ForwardedIsReadPrefix(incoming[1..]);
      assert Forwarded(incoming) == [incoming[0].message] + Forwarded(incoming[1..]);
    }
  }

  class Client {
    /** websocketRemoteAddress: set once when the client is created. */
    const address: RemoteAddress
    var connectionIsClosed: bool
    /** How many times the transport's Close was called. */
    var transportCloses: nat
    /** Every message handed to the transport's write, in order. */
    var written: seq<Bytes>

    /** The transport is closed exactly once, when the flag goes up. */
    ghost predicate Valid()
      reads this
    {
      transportCloses == if connectionIsClosed then 1 else 0
    }

    /** The client as built after a successful upgrade. */
    constructor (address: RemoteAddress)
      ensures Valid()
      ensures this.address == address && !connectionIsClosed && written == []
    {
      this.address := address;
      connectionIsClosed := false;
      transportCloses := 0;
      written := [];
    }

    /** closeConnection: idempotent; raises the flag and closes the transport once. */
    method CloseConnection()
      modifies this
      ensures old(Valid()) ==> Valid()
      ensures connectionIsClosed
      ensures written == old(written)
      ensures old(connectionIsClosed) ==> transportCloses == old(transportCloses)
      ensures !old(connectionIsClosed) ==> transportCloses == old(transportCloses) + 1
    {
      if connectionIsClosed {
        return;
      }
      connectionIsClosed := true;
      // connection.Close(): its error is only logged
      transportCloses := transportCloses + 1;
    }

    /** sendMessage: as written, the guard lets a message through only when the
        connection is already CLOSED; on an open connection nothing is written.
        `writeFails` is the abstract outcome of the transport's write. */
    method SendMessage(message: Bytes, writeFails: bool) returns (err: Option<Error>)
      modifies this`written
      ensures !connectionIsClosed ==> err == None && written == old(written)
      ensures connectionIsClosed && writeFails ==> err == Some(WriteFailed) && written == old(written)
      ensures connectionIsClosed && !writeFails ==> err == None && written == old(written) + [message]
    {
      if !connectionIsClosed {
        return None;
      }
      if writeFails {
        return Some(WriteFailed);
      }
      written := written + [message];
      return None;
    }

    /** receiveMessage: reads until the flag is set or a read fails, hands each
        message to the callback (returned here, in order), and closes the
        connection on exit. Running out of `incoming` stands for the read error that
        ends every connection. */
    method ReceiveMessage(incoming: seq<ReadResult>) returns (forwarded: seq<Bytes>)
      requires Valid()
      modifies this
      ensures Valid() && connectionIsClosed
      ensures written == old(written)
      ensures forwarded == if old(connectionIsClosed) then [] else Forwarded(incoming)
    {
      forwarded := [];
      var i := 0;
      while true
        invariant 0 <= i <= |incoming|
        invariant connectionIsClosed == old(connectionIsClosed)
        invariant transportCloses == old(transportCloses) && written == old(written)
        invariant old(connectionIsClosed) ==> i == 0 && forwarded == []
        invariant !old(connectionIsClosed) ==> Forwarded(incoming) == forwarded + Forwarded(incoming[i..])
        decreases |incoming| - i
      {
        if connectionIsClosed {
          break;
        }
        if i == |incoming| || incoming[i].ReadFailed? {
          break;
        }
        assert Forwarded(incoming[i..]) == [incoming[i].message] + Forwarded(incoming[i + 1..]);
        forwarded := forwarded + [incoming[i].message];
        i := i + 1;
      }
      CloseConnection();
    }
  }
}
