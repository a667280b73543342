/** SimpleClient: the main window. `openFile` takes the path the file dialog
    returned and keeps it together with the file's name; `upload` checks that
    the client is connected and a file is chosen, sends it, and disconnects. */
module Client {
  import opened Common
  import opened Wire
  import opened Transfer
  import opened TcpClient

  const Slash: CodeUnit := 0x2F

  const ConnectError := Message("Client Connection Error", "Please connect to server")
  const UploadError := Message("File Upload Error", "You need to open a file to upload")
  const FileNameError := Message("File Name Error", "Could not determine file name from path")

  /** `find_last_of('/')`: the index of the last slash in `path`, if any. */
  function LastSlash(path: Text): (r: Option<nat>)
    ensures r.None? <==> Slash !in path
    ensures r.Some? ==> r.value < |path| && path[r.value] == Slash && Slash !in path[r.value + 1..]
  {
    if path == [] then None
    else if path[|path| - 1] == Slash then Some(|path| - 1)
    else
      var r := LastSlash(path[..|path| - 1]);
      assert path == path[..|path| - 1] + [path[|path| - 1]];
      if r.Some? then
        assert path[r.value + 1..] == path[..|path| - 1][r.value + 1..] + [path[|path| - 1]];
        r
      else r
  }

  /** The split is where one expects it: a directory, a slash, then a name
      without a slash gives back the name, whatever the directory holds. */
  lemma {:induction false} LastSlashOfSplit(dir: Text, name: Text)
    requires Slash !in name
    ensures LastSlash(dir + [Slash] + name) == Some(|dir|)
    decreases |name|
  {
    var path := dir + [Slash] + name;
    if name != [] {
      var front := name[..|name| - 1];
      assert name == front + [name[|name| - 1]];
      assert path[..|path| - 1] == dir + [Slash] + front;
      LastSlashOfSplit(dir, front);
    }
  }

  /** The value the progress bar shows once `values` were emitted after it
      was reset to 0: the last one, or 0 when there was none. */
  function LastProgress(values: seq<nat>): (shown: nat)
  {
    if values == [] then 0 else values[|values| - 1]
  }

  class SimpleClient {
    var fileNameLabel: Text
    var fileNameWithExtFullPath: Text
    var progressValue: nat
    const socketClient: UITcpClient

    constructor(client: UITcpClient)
      ensures socketClient == client
      ensures fileNameLabel == [] && fileNameWithExtFullPath == [] && progressValue == 0
    {
      socketClient := client;
      fileNameLabel := [];
      fileNameWithExtFullPath := [];
      progressValue := 0;
    }

    /** `openFile`, given the path the dialog returned (empty when the user
        cancelled). The label, the stored path and the progress are cleared
        first; only a path with a slash in it is kept, and then the label is
        the part after its last slash. */
    method OpenFile(fileNameFullPath: Text) returns (report: Option<Message>)
      modifies this
      ensures progressValue == 0
      ensures Slash !in fileNameFullPath ==> fileNameLabel == [] && fileNameWithExtFullPath == []
      ensures fileNameFullPath == [] ==> report == None
      ensures fileNameFullPath != [] && Slash !in fileNameFullPath ==> report == Some(FileNameError)
      ensures Slash in fileNameFullPath ==>
        var cut := |fileNameFullPath| - |fileNameLabel|;
        report == None && fileNameWithExtFullPath == fileNameFullPath &&
        Slash !in fileNameLabel && 0 < cut && fileNameFullPath[cut - 1] == Slash &&
        fileNameFullPath == fileNameFullPath[..cut] + fileNameLabel
    {
      fileNameLabel := [];
      fileNameWithExtFullPath := [];
      progressValue := 0;

      if fileNameFullPath == [] {
        return None;
      }
      var pos := LastSlash(fileNameFullPath);
      if pos.None? {
        return Some(FileNameError);
      }
      var fileNameWithExt := fileNameFullPath[pos.value + 1..];
      assert fileNameFullPath == fileNameFullPath[..pos.value + 1] + fileNameWithExt;
      fileNameWithExtFullPath := fileNameFullPath;
      fileNameLabel := fileNameWithExt;
      report := None;
    }

    /** `disconnect`: hand over to the client's disconnectClient. */
    method Disconnect()
      modifies socketClient.tcpSocket
      ensures !socketClient.tcpSocket.connected && socketClient.tcpSocket.pending == []
      ensures socketClient.tcpSocket.writes == old(socketClient.tcpSocket.writes)
    {
      socketClient.DisconnectClient();
    }

    /** `upload`: reset the progress bar; refuse when the client is not
        connected or no file name is set, touching nothing else; otherwise
        send the file (`readable` as for SendFile), show each progress value
        as it is emitted, and disconnect afterwards whatever happened. */
    method Upload(readable: map<Text, seq<Byte>>) returns (report: Option<Message>)
      modifies this, socketClient.tcpSocket
      ensures fileNameLabel == old(fileNameLabel)
      ensures fileNameWithExtFullPath == old(fileNameWithExtFullPath)
      ensures !old(socketClient.tcpSocket.connected) ==>
        report == Some(ConnectError) && progressValue == 0 &&
        socketClient.tcpSocket.writes == old(socketClient.tcpSocket.writes) &&
        socketClient.tcpSocket.State() == old(socketClient.tcpSocket.State())
      ensures old(socketClient.tcpSocket.connected) && fileNameLabel == [] ==>
        report == Some(UploadError) && progressValue == 0 &&
        socketClient.tcpSocket.writes == old(socketClient.tcpSocket.writes) &&
        socketClient.tcpSocket.State() == old(socketClient.tcpSocket.State())
      ensures old(socketClient.tcpSocket.connected) && fileNameLabel != [] ==>
        !socketClient.tcpSocket.connected && socketClient.tcpSocket.pending == []
      ensures (old(socketClient.tcpSocket.connected) && fileNameLabel != [] &&
               fileNameWithExtFullPath !in readable) ==>
        report == Some(FileOpenError) && progressValue == 0 &&
        socketClient.tcpSocket.writes == old(socketClient.tcpSocket.writes)
      ensures (old(socketClient.tcpSocket.connected) && fileNameLabel != [] &&
               fileNameWithExtFullPath in readable) ==>
        var data := readable[fileNameWithExtFullPath];
        var link := old(socketClient.tcpSocket.State());
        var k := |SentChunks(data, link)|;
        report == None &&
        socketClient.tcpSocket.writes ==
          old(socketClient.tcpSocket.writes) + SessionBlocks(fileNameLabel, data, link) &&
        (|data| > 0 || k == 0) && progressValue == LastProgress(Progress(|data|, k)) &&
        progressValue <= 100 &&
        (progressValue == 100 <==> 0 < k == |Chunks(data)|)
    {
      progressValue := 0;
      if !socketClient.IsClientConnected() {
        return Some(ConnectError);
      }
      var fileName := fileNameLabel;
      if fileName == [] {
        return Some(UploadError);
      }

      ghost var link := socketClient.tcpSocket.State();
      var progress;
      report, progress := socketClient.SendFile(fileName, fileNameWithExtFullPath, readable);
      if progress != [] {
        progressValue := progress[|progress| - 1];
      }
      if fileNameWithExtFullPath in readable {
        ghost var data := readable[fileNameWithExtFullPath];
        ghost var k := |SentChunks(data, link)|;
        ChunkCount(data);
        ShownProgress(|data|, k);
      }

      Disconnect();
    }
  }

  /** The progress bar after a run that sent k of a file's chunks shows at
      most 100, and 100 exactly when the run sent the file's last chunk. */
  lemma ShownProgress(size: nat, k: nat)
    requires (size > 0 || k == 0) && k <= ChunkTotal(size)
    ensures LastProgress(Progress(size, k)) <= 100
    ensures LastProgress(Progress(size, k)) == 100 <==> 0 < k == ChunkTotal(size)
  {
    if k > 0 {
      ProgressMonotone(size, k);
      ProgressComplete(size, k);
    }
  }
}
