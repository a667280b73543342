# SimpleClient file upload, modelled in Dafny

SimpleClient is a small Qt desktop client that uploads one file to a server
over a TCP socket. Its main window (`SimpleClient`) has two relevant slots:

- `openFile` takes the path chosen in a file dialog and keeps both the full
  path and the file name after the last `/`.
- `upload` refuses to send unless the client is connected and a name is set.
  Otherwise it sends the file and then disconnects, because the server takes
  one file per connection.

The socket wrapper `UITcpClient::sendFile` first writes a name block. It then
reads the file in chunks of at most `maxFileChunk` (1,000,000) bytes. Each
chunk is written as a big-endian quint64 length followed by the raw bytes.
After each chunk it emits a progress percentage and lets the event loop run.
The loop stops at the end of the file, or as soon as the socket is no longer
connected. `socketException` turns socket errors into user messages.

The model has five modules:

- `Wire` (`wire.dfy`) holds the bytes as `QDataStream` lays them out.
  - Integers are written big-endian.
  - A `QString` is written as a quint32 byte count, then its UTF-16 code
    units, big-endian.
  - It also holds a receiver-side decoder, used to state round trips.
- `Transfer` (`transfer.dfy`) holds the specification functions for one
  run of `sendFile`:
  - the chunks of a file;
  - how many chunks the loop sends, given the connection states it observes;
  - the progress values it emits;
  - the blocks that reach the socket.
- `TcpClient` (`tcp_client.dfy`):
  - the class `UITcpClient`;
  - its socket as a class `Socket`, holding the blocks written so far and
    the connection state;
  - `socketException`'s classification.
- `Client` (`simple_client.dfy`): the window class `SimpleClient` with its
  label, stored path and progress bar value.
- `Common` (`common.dfy`): `Option` and the message-box value.

The connection can drop at any time while the file is being sent. The
client sees this at the loop's check of `isClientConnected`, and the state
can change whenever socket events are processed: inside each
`waitForBytesWritten`, in `QApplication::processEvents()`, and in the event
loops of the modal message boxes and the file dialog. Only the first two
happen while a file is being sent, and only they are modelled. The model
therefore gives the socket an oracle: the sequence of connection states that
successive rounds of event processing leave it in. One round follows the
name block's write. Another round follows each chunk, covering both the
chunk's wait and the `processEvents` call. So a connected start can still
end with the name block and no chunk (`Transfer.NameBlockOnly`). The sending
loop's behaviour is proved for every such oracle.

The socket's `connected` flag stands for the connected state that
`isClientConnected` tests. Every other socket state counts as not connected.

The name block is not a length-prefixed UTF-8 string. It is:

- 8 bytes holding `QString::size()`, the number of UTF-16 code units;
- then the `QString` serialisation, which is a 4-byte count of bytes
  (2 per unit) followed by the units as UTF-16 big-endian.

An empty file emits no progress value: the loop body never runs, so the bar
stays at the 0 that `upload` set.

The wire format has no end marker. `Transfer.SessionOnWire` shows the
consequence: a run cut short by a disconnect still decodes cleanly, to a
prefix of the file. A run cut short sends only full chunks of 1,000,000
bytes (`Transfer.CutShortSendsFullChunks`). So a stream whose last chunk is
shorter than 1,000,000 bytes is complete. A stream of full chunks only is
either a complete file whose size is a multiple of 1,000,000 or a run cut
short, and the receiver cannot tell which.

## Model

| member | source | states |
|---|---|---|
| Wire.EncodeBE | SimpleClient/UITcpClient.cpp:89-92 | an unsigned integer as `width` bytes, most significant first, as `QDataStream` writes a quint64 or quint32 (also line 111) |
| Wire.DecodeEncode | SimpleClient/UITcpClient.cpp:89 | a value that fits in `width` bytes is recovered from its big-endian encoding |
| Wire.EncodeDecode | SimpleClient/UITcpClient.cpp:89 | every byte string is the big-endian encoding of its value (the encoding is onto) |
| Wire.Frame | SimpleClient/UITcpClient.cpp:105-116 | a chunk block is the chunk length as a big-endian quint64 followed by the raw chunk bytes, 8 + n bytes in all |
| Wire.FrameLayout | SimpleClient/UITcpClient.cpp:111-116 | a chunk block is 8 + n bytes; its first 8 bytes read back as n and the payload follows unchanged |
| Wire.DecodeFrame | SimpleClient/UITcpClient.cpp:111-116 | any frame a receiver splits off re-encodes to exactly the bytes it came from; a short input is refused as truncated |
| Wire.FrameRoundTrip | SimpleClient/UITcpClient.cpp:111-116 | decoding a chunk block gives back its payload and leaves the following bytes untouched |
| Wire.FramePrefixTruncated | SimpleClient/UITcpClient.cpp:111-116 | every strict prefix of a chunk block is refused as truncated |
| Wire.DecodeFrames | SimpleClient/UITcpClient.cpp:100-116 | a stream the receiver accepts as frames is exactly the concatenation of those frames |
| Wire.FramesRoundTrip | SimpleClient/UITcpClient.cpp:100-116 | the concatenated blocks of any chunk sequence decode back to that sequence |
| Wire.EncodeUnits | SimpleClient/UITcpClient.cpp:92 | each UTF-16 code unit of the name as two bytes, high byte first: the data part of `<< QString` |
| Wire.UnitsRoundTrip | SimpleClient/UITcpClient.cpp:92 | the UTF-16 big-endian bytes of a name decode back to the name |
| Wire.BytesRoundTrip | SimpleClient/UITcpClient.cpp:92 | every even-length byte string is the UTF-16 encoding of the units it decodes to |
| Wire.SerializeName | SimpleClient/UITcpClient.cpp:91-92 | the QString serialisation: a big-endian quint32 holding the byte count (2 per code unit), then the code units big-endian, 4 + 2n bytes in all |
| Wire.NameBlock | SimpleClient/UITcpClient.cpp:84-92 | the first block written: the name's code-unit count as a big-endian quint64, then the QString serialisation, 12 + 2n bytes in all |
| Wire.DecodeNameBlock | SimpleClient/UITcpClient.cpp:84-92 | a name block the receiver accepts re-encodes to exactly the bytes it was read from; the unit count must agree with the QString byte count |
| Wire.NameBlockRoundTrip | SimpleClient/UITcpClient.cpp:84-92 | the name block (quint64 unit count, then the serialised QString) decodes back to the name and leaves what follows |
| Wire.DecodeTransfer | SimpleClient/UITcpClient.cpp:84-116 | an accepted stream is one name block followed by the concatenated chunk frames |
| Wire.TransferRoundTrip | SimpleClient/UITcpClient.cpp:84-116 | the name block followed by the chunk blocks decodes to the name and the chunk payloads, in order |
| Transfer.Chunks | SimpleClient/UITcpClient.cpp:98-103 | the file cut into consecutive reads of min(1,000,000, bytes left) bytes until the stream is at its end |
| Transfer.ChunksFlatten | SimpleClient/UITcpClient.cpp:98-103 | the chunks, concatenated in read order, are the whole file |
| Transfer.ChunkCount | SimpleClient/UITcpClient.cpp:8 | a file of n bytes has ceil(n / 1,000,000) chunks |
| Transfer.ChunkSizes | SimpleClient/UITcpClient.cpp:101-103 | every chunk has 1 to 1,000,000 bytes, and every chunk but the last has exactly 1,000,000 |
| Transfer.BytesAfter | SimpleClient/UITcpClient.cpp:80-118 | `totalFileBytesWritten` after k chunks: min(k * 1,000,000, size) |
| Transfer.SentPrefix | SimpleClient/UITcpClient.cpp:79-80 | the first k chunks concatenated are the file prefix whose length is the running byte total |
| Transfer.ChunkAt | SimpleClient/UITcpClient.cpp:100-118 | chunk i exists iff the read position after i chunks is before the end, and it is the next slice from that position |
| Transfer.ThreeChunkFile | SimpleClient/UITcpClient.cpp:8 | a 2,500,000-byte file goes out as chunks of 1,000,000, 1,000,000 and 500,000 bytes |
| Transfer.ChunksSent | SimpleClient/UITcpClient.cpp:100 | the loop sends at most as many chunks as the file has |
| Transfer.ChunksSentExactly | SimpleClient/UITcpClient.cpp:100 | exactly k chunks are sent iff the socket was seen connected before each of them and, unless the file ran out, seen disconnected at the next check |
| Transfer.HaltsOnDisconnect | SimpleClient/UITcpClient.cpp:137-139 | once a check sees the socket disconnected, no later chunk is sent |
| Transfer.Percent | SimpleClient/UITcpClient.cpp:121-122 | the value emitted once `total` of `size` bytes are written: floor(total * 100 / size) (integer approximation of the `double` computation), defined only for a non-empty file |
| Transfer.Progress | SimpleClient/UITcpClient.cpp:119-122 | the values emitted after the first k chunks: exactly k of them, one per chunk, in order |
| Transfer.PercentBounds | SimpleClient/UITcpClient.cpp:121-122 | a progress value is at most 100, and it is 100 iff all bytes are written |
| Transfer.PercentMonotone | SimpleClient/UITcpClient.cpp:121-122 | more bytes written never gives a smaller progress value |
| Transfer.ProgressAt | SimpleClient/UITcpClient.cpp:121-122 | the i-th value emitted is the percentage of the bytes written after chunk i |
| Transfer.ProgressMonotone | SimpleClient/UITcpClient.cpp:121-122 | the emitted values are each at most 100 and non-decreasing |
| Transfer.ProgressComplete | SimpleClient/UITcpClient.cpp:121-122 | the last value emitted is 100 iff the last chunk of the file was sent |
| Transfer.SendOneMore | SimpleClient/UITcpClient.cpp:100-122 | one iteration reads the next chunk, writes its frame, and adds the next progress value, giving the state after one more chunk |
| Transfer.ConnectedOneMore | SimpleClient/UITcpClient.cpp:100 | an iteration that found the socket connected extends the run of connected checks by one |
| Transfer.FramesUpToPrefix | SimpleClient/UITcpClient.cpp:98-118 | the frames written chunk by chunk are the frames of the first i chunks |
| Transfer.EmptyFile | SimpleClient/UITcpClient.cpp:79-100 | an empty file gives the name block only and no progress value, so nothing is divided by zero |
| Transfer.AfterWait | SimpleClient/UITcpClient.cpp:94-95 | the connection after the name block's `waitForBytesWritten`: one oracle round if connected, unchanged otherwise |
| Transfer.SentChunks | SimpleClient/UITcpClient.cpp:94-129 | the chunks one run sends: the first ChunksSent chunks, counted from the connection after the name block's wait |
| Transfer.SessionBlocks | SimpleClient/UITcpClient.cpp:61-129 | the blocks one run writes: nothing when the socket starts unconnected, else the name block followed by the frames of the chunks sent |
| Transfer.NameBlockOnly | SimpleClient/UITcpClient.cpp:94-100 | if the connection drops during the name block's wait, the run writes the name block and no chunk |
| Transfer.CutShortSendsFullChunks | SimpleClient/UITcpClient.cpp:100-103 | a run that stops before the file's last chunk has sent only chunks of exactly 1,000,000 bytes |
| Transfer.SessionOnWire | SimpleClient/UITcpClient.cpp:61-129 | what one run writes decodes to the name and the chunks sent; those are a file prefix, and it is the whole file iff every chunk was sent |
| TcpClient.SocketExceptionReport | SimpleClient/UITcpClient.cpp:35-58 | no message when the remote host closed; distinct titles for host-not-found and connection-refused; a generic message quoting the error string for every other kind |
| TcpClient.Socket.Write | SimpleClient/UITcpClient.cpp:94 | a connected socket appends the block after all earlier ones; a socket that is not connected drops it |
| TcpClient.Socket.WaitForBytesWritten | SimpleClient/UITcpClient.cpp:94-95 | after the name block's write, a connected socket's state moves to the oracle's next state; an unconnected one is unchanged; nothing is written |
| TcpClient.Socket.ProcessEvents | SimpleClient/UITcpClient.cpp:116-127 | the events after a chunk (its wait and `processEvents`) move the connection to the oracle's next state and write nothing |
| TcpClient.Socket.DisconnectFromHost | SimpleClient/UITcpClient.cpp:132-134 | the socket ends disconnected for good and nothing is written |
| TcpClient.UITcpClient.IsClientConnected | SimpleClient/UITcpClient.cpp:137-139 | true exactly when the socket is in the connected state |
| TcpClient.UITcpClient.DisconnectClient | SimpleClient/UITcpClient.cpp:132-134 | the client's socket ends disconnected and nothing is written |
| TcpClient.UITcpClient.SendFile | SimpleClient/UITcpClient.cpp:61-129 | an unopenable file reports "File Open Error" and writes nothing; otherwise the socket receives exactly the name block and the frames of the chunks ChunksSent counts, and the emitted progress is Progress of those chunks |
| TcpClient.UITcpClient.SendChunks | SimpleClient/UITcpClient.cpp:98-128 | the loop writes exactly the frames of the first ChunksSent chunks, emits their progress values, and leaves the connection where the oracle is after that many rounds |
| Client.LastSlash | SimpleClient/simpleclient.cpp:117 | no index iff the path has no `/`; otherwise the index holds a `/` and no `/` follows it |
| Client.LastSlashOfSplit | SimpleClient/simpleclient.cpp:117-126 | directory + `/` + a name without `/` is split right before the name, whatever the directory holds |
| Client.SimpleClient.constructor | SimpleClient/simpleclient.cpp:13-20 | the window starts with an empty label, no stored path and progress 0 |
| Client.SimpleClient.OpenFile | SimpleClient/simpleclient.cpp:100-131 | label, path and progress are cleared first; an empty or slash-free path leaves them empty (the latter reports "File Name Error"); otherwise the full path is stored and the label is the slash-free part after the last `/` |
| Client.SimpleClient.Disconnect | SimpleClient/simpleclient.cpp:154-156 | the client's socket ends disconnected and nothing is written |
| Client.SimpleClient.Upload | SimpleClient/simpleclient.cpp:48-97 | progress is reset; not connected or no name: the matching message and the socket untouched; otherwise the socket receives SendFile's blocks, the bar shows the last value emitted (at most 100, and 100 iff the whole non-empty file went out), and the client ends disconnected |
| Client.LastProgress | SimpleClient/simpleclient.cpp:169-171 | what the bar shows after a run: the last value emitted, or the 0 it was reset to when none was |
| Client.ShownProgress | SimpleClient/simpleclient.cpp:169-171 | the bar after a run shows at most 100, and 100 iff the run sent the file's last chunk |

## Left out

- The Qt user interface is not modelled: widgets, rendering, `QFileDialog`, and the slot connect/disconnect calls in `upload` and the constructors. The dialog's result is a parameter of `OpenFile`, and a message box is the `Message` value returned.
- `connect`, `connectClient`, `clientConnected`, `clientDisconnected` and `resetClientUIElements` are left out. They change only labels or start an asynchronous connection. The socket's state when `upload` runs is its input.
- Real socket I/O is not modelled. `write` becomes `Socket.Write`, which appends a whole block to the blocks written, with no partial writes or timeouts. A block lost because the connection failed while it was being sent is still counted as written. Writes are modelled only in the connected state. The host-lookup, connecting and closing states, where Qt buffers a write, are treated as unconnected, and there the block is dropped.
- A chunk's `waitForBytesWritten` and the `processEvents` call after it are one oracle round (`Socket.ProcessEvents`). Only the state at the loop's next check is observable, and any two rounds in a row are covered by one oracle entry.
- The event loops that run inside the modal message boxes (`QMessageBox::information` at simpleclient.cpp:52-53, 60-61 and 121-122, and at UITcpClient.cpp:74-75) and inside `QFileDialog::getOpenFileName` (simpleclient.cpp:106-109) are not modelled. The socket state is taken as unchanged across them. So `Upload`'s two guard paths, `SendFile`'s open-failure path and `OpenFile` promise an unchanged socket, while the program could, for example, finish connecting while the "Client Connection Error" box is open.
- Transfer.Percent: floor(total * 100 / size) is the integer reading of the code's `double` computation truncated to `size_t`; the two differ only where floating-point rounding of the quotient lands just below an integer.
- Event-loop reentrancy is not modelled. Event processing is the oracle step: it only changes the connection state. Other slots that could run meanwhile (for example a second `openFile`) are not modelled. `upload` guards against them by disconnecting its buttons.
- File access is a map from readable paths to their contents. Opening fails exactly when the path is not in it. `QFile::size` is the length of the contents.
- Read errors are not modelled. `readRawData` returning -1 is not handled by the code either; each read returns min(remaining, `maxFileChunk`) bytes.
- SendChunks: the loop of `sendFile` is a method of its own. `SendFile` opens the file, writes the name block and calls it. This is the same sequence of effects as the single function.
- TcpClient.UITcpClient.SendFile: progress is integer floor(total * 100 / size). The code computes it in `double` and truncates. The two agree except where floating-point rounding of the quotient lands just below an integer.
- TcpClient.UITcpClient.SendFile: integer widths are not modelled. `qint64` and `int` never overflow, and a name is assumed short enough that its byte count fits the QString's quint32 (the round-trip lemmas require it). The null-QString marker 0xFFFFFFFF is not modelled. The label can hold a null QString (`setText(QString())` at simpleclient.cpp:18 and :102), but `upload` rejects an empty name before sending (simpleclient.cpp:59-63), and a non-empty QString is never null.
- Client.SimpleClient.OpenFile: `toStdString` and `fromStdString` are not modelled. The split is done on UTF-16 code units. The code converts to UTF-8 and back. For well-formed UTF-16 this gives the same name, because `/` is one byte that never occurs inside another character's encoding. A path holding an unpaired surrogate is changed by `toStdString`, and the model does not capture that.
- `socketException`'s connection to the socket's `error` signal is left out. The model gives the message each error kind produces.
- The headers `UITcpClient.h` and `simpleclient.h` hold declarations only.
