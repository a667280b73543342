/** UITcpClient: the socket wrapper the window uses. Its `sendFile` writes the
    name block and then the file, chunk by chunk, while the socket stays
    connected; `socketException` turns socket errors into user messages. */
module TcpClient {
  import opened Common
  import opened Wire
  import opened Transfer

  /** The kinds of QAbstractSocket::SocketError that socketException tells
      apart; OtherError stands for every other enumerator. Which one it is
      does not change the report beyond the error string, so it is not kept. */
  datatype SocketError =
    | RemoteHostClosedError
    | HostNotFoundError
    | ConnectionRefusedError
    | OtherError

  const GenericErrorPrefix: string := "The following error occured: "

  /** What socketException shows for `error`, given the socket's error string:
      nothing when the server closed the connection, a message naming the IP
      or the port for the two connection failures, and a generic message
      quoting the error string otherwise. The title tells the kinds apart. */
  function SocketExceptionReport(error: SocketError, errorString: string): (r: Option<Message>)
    ensures r.None? <==> error.RemoteHostClosedError?
    ensures r.Some? ==> (r.value.title == "Server Not Found" <==> error.HostNotFoundError?)
    ensures r.Some? ==> (r.value.title == "Server Refused Connection" <==> error.ConnectionRefusedError?)
    ensures r.Some? ==> (r.value.title == "Server Error" <==> error.OtherError?)
    ensures error.OtherError? ==> r == Some(Message("Server Error", GenericErrorPrefix + errorString))
  {
    match error
    case RemoteHostClosedError => None
    case HostNotFoundError => Some(Message("Server Not Found", "Please check server IP"))
    case ConnectionRefusedError => Some(Message("Server Refused Connection", "Please check server port"))
    case OtherError => Some(Message("Server Error", GenericErrorPrefix + errorString))
  }

  const FileOpenError := Message("File Open Error", "The file could not be opened for reading")

  /** The QTcpSocket as sendFile uses it: the blocks written, in order, and
      whether it is in the connected state (the one isClientConnected tests;
      every other state counts as not connected), together with the oracle of
      states that later rounds of event processing bring. */
  class Socket {
    var writes: seq<seq<Byte>>
    var connected: bool
    var pending: seq<bool>

    constructor(connected: bool, pending: seq<bool>)
      ensures this.writes == [] && this.connected == connected && this.pending == pending
    {
      this.writes := [];
      this.connected := connected;
      this.pending := pending;
    }

    function State(): Link
      reads this
    {
      Link(connected, pending)
    }

    /** `write`: a connected socket queues the block after everything written
        before it; on a socket that is not connected the block is dropped. */
    method Write(block: seq<Byte>)
      modifies this
      ensures writes == if old(connected) then old(writes) + [block] else old(writes)
      ensures connected == old(connected) && pending == old(pending)
    {
      if connected {
        writes := writes + [block];
      }
    }

    /** `waitForBytesWritten` after the name block: on a connected socket it
        runs the socket's event handling, so the connection state becomes the
        next one the oracle holds; otherwise it returns at once. */
    method WaitForBytesWritten()
      modifies this
      ensures State() == AfterWait(old(State()))
      ensures writes == old(writes)
    {
      if connected && pending != [] {
        connected, pending := pending[0], pending[1..];
      }
    }

    /** The event processing after a chunk: the chunk's `waitForBytesWritten`
        and then `QApplication::processEvents()`. Only the state seen at the
        loop's next check matters, and the oracle is arbitrary, so the two
        count as one round: the state becomes the next one the oracle holds. */
    method ProcessEvents()
      modifies this
      ensures State() == Step(old(State()))
      ensures writes == old(writes)
    {
      if pending != [] {
        connected, pending := pending[0], pending[1..];
      }
    }

    /** `disconnectFromHost`: the socket leaves the connected state for good. */
    method DisconnectFromHost()
      modifies this
      ensures !connected && pending == []
      ensures writes == old(writes)
    {
      connected, pending := false, [];
    }
  }

  class UITcpClient {
    const tcpSocket: Socket

    constructor(socket: Socket)
      ensures tcpSocket == socket
    {
      tcpSocket := socket;
    }

    /** `isClientConnected`: the socket is in the connected state. */
    predicate IsClientConnected()
      reads tcpSocket
    {
      tcpSocket.connected
    }

    method DisconnectClient()
      modifies tcpSocket
      ensures !tcpSocket.connected && tcpSocket.pending == []
      ensures tcpSocket.writes == old(tcpSocket.writes)
    {
      tcpSocket.DisconnectFromHost();
    }

    /** `sendFile`: open the file at `fullFileNamePath` (the files that can be
        opened for reading and their contents are `readable`); on failure report
        it and write nothing. Otherwise write the name block and wait for it to
        be written (the connection may drop meanwhile), then send the file's
        chunks as SendChunks does. Returns the report shown to the user, if any,
        and the progress values emitted, in order. */
    method SendFile(fileNameWithExt: Text, fullFileNamePath: Text, readable: map<Text, seq<Byte>>)
      returns (report: Option<Message>, progress: seq<nat>)
      modifies tcpSocket
      ensures fullFileNamePath !in readable ==>
        report == Some(FileOpenError) && progress == [] &&
        tcpSocket.writes == old(tcpSocket.writes) && tcpSocket.State() == old(tcpSocket.State())
      ensures fullFileNamePath in readable ==> report == None
      ensures fullFileNamePath in readable ==>
        tcpSocket.writes == old(tcpSocket.writes) +
          SessionBlocks(fileNameWithExt, readable[fullFileNamePath], old(tcpSocket.State()))
      ensures fullFileNamePath in readable ==>
        var data := readable[fullFileNamePath];
        var k := |SentChunks(data, old(tcpSocket.State()))|;
        (|data| > 0 || k == 0) && progress == Progress(|data|, k) &&
        tcpSocket.State() == Advance(AfterWait(old(tcpSocket.State())), k)
    {
      if fullFileNamePath !in readable {
        report, progress := Some(FileOpenError), [];
        return;
      }
      report := None;
      var data := readable[fullFileNamePath];
      ghost var link0 := tcpSocket.State();
      ghost var writes0 := tcpSocket.writes;

      tcpSocket.Write(NameBlock(fileNameWithExt));
      tcpSocket.WaitForBytesWritten();
      ghost var header := tcpSocket.writes;
      progress := SendChunks(data);

      ghost var k := ChunksSent(AfterWait(link0), |Chunks(data)|);
      assert tcpSocket.writes == header + Frames(Chunks(data)[..k]);
      if link0.connected {
        AppendAssociates(writes0, [NameBlock(fileNameWithExt)], Frames(Chunks(data)[..k]));
      } else {
        assert k == 0;
      }
    }

    /** The chunk loop of `sendFile`: while the socket is connected and the
        file is not at its end, read the next chunk, write it as one frame,
        emit the percentage of the file sent so far and let the event loop run.
        The frames written are those of the chunks ChunksSent counts, and the
        socket ends in the state the oracle reaches after that many rounds. */
    method SendChunks(data: seq<Byte>) returns (progress: seq<nat>)
      modifies tcpSocket
      ensures var k := ChunksSent(old(tcpSocket.State()), |Chunks(data)|);
        tcpSocket.writes == old(tcpSocket.writes) + Frames(Chunks(data)[..k]) &&
        (|data| > 0 || k == 0) && progress == Progress(|data|, k) &&
        tcpSocket.State() == Advance(old(tcpSocket.State()), k)
    {
      var fileSize := |data|;
      var totalFileBytesWritten := 0;
      ghost var link0 := tcpSocket.State();
      ghost var writes0 := tcpSocket.writes;
      ghost var available := |Chunks(data)|;

      var position := 0;  // read position of the file stream
      ghost var i: nat := 0;  // chunks sent so far
      progress := [];
      while IsClientConnected() && position < fileSize
        invariant i <= available
        invariant totalFileBytesWritten == position == BytesAfter(fileSize, i)
        invariant position < fileSize <==> i < available
        invariant ConnectedBefore(link0, i)
        invariant tcpSocket.State() == Advance(link0, i)
        invariant tcpSocket.writes == writes0 + FramesUpTo(data, i)
        invariant fileSize > 0 || i == 0
        invariant progress == Progress(fileSize, i)
        decreases fileSize - position
      {
        var readBytes := Min(MaxFileChunk, fileSize - position);
        SendOneMore(data, i, position, progress, FramesUpTo(data, i), readBytes);
        ConnectedOneMore(link0, i);
        var buffer := data[position..position + readBytes];
        var block := EncodeBE(readBytes, 8) + buffer;
        tcpSocket.Write(block);
        AppendAssociates(writes0, FramesUpTo(data, i), [block]);
        position := position + readBytes;
        totalFileBytesWritten := totalFileBytesWritten + readBytes;
        progress := progress + [Percent(totalFileBytesWritten, fileSize)];
        tcpSocket.ProcessEvents();
        i := i + 1;
      }
      ChunksSentExactly(link0, available, i);
      FramesUpToPrefix(data, i);
      assert ChunksSent(link0, available) == i;
      assert old(tcpSocket.State()) == link0 && old(tcpSocket.writes) == writes0;
    }
  }
}
