/** What one run of UITcpClient::sendFile does, stated as functions of its
    inputs: how the file is cut into chunks, how many chunks go out before the
    loop stops, and which progress percentages are emitted. The loop itself is
    TcpClient.UITcpClient.SendChunks, proved against these definitions. */
module Transfer {
  import opened Common
  import opened Wire

  /** Largest slice read from the file per loop iteration (`maxFileChunk`). */
  const MaxFileChunk: nat := 1000000

  // ---------------------------------------------------------------------------
  // Chunking

  /** The file cut into consecutive slices of MaxFileChunk bytes, the last one
      possibly shorter: what successive `readRawData(buffer, maxFileChunk)`
      calls return until the stream is at its end. */
  function Chunks(data: seq<Byte>): (r: seq<seq<Byte>>)
    decreases |data|
  {
    if data == [] then []
    else
      var n := Min(|data|, MaxFileChunk);
      [data[..n]] + Chunks(data[n..])
  }

  /** Number of chunks of a file of `size` bytes: size / MaxFileChunk rounded up. */
  function ChunkTotal(size: nat): (n: nat)
  {
    (size + MaxFileChunk - 1) / MaxFileChunk
  }

  /** Bytes covered by the first `chunks` chunks of a file of `size` bytes. */
  function BytesAfter(size: nat, chunks: nat): (total: nat)
  {
    Min(chunks * MaxFileChunk, size)
  }

  /** The chunks, concatenated in order, are the file. */
  lemma {:induction false} ChunksFlatten(data: seq<Byte>)
    ensures Flatten(Chunks(data)) == data
    decreases |data|
  {
    if data != [] {
      var n := Min(|data|, MaxFileChunk);
      ChunksFlatten(data[n..]);
      assert data == data[..n] + data[n..];
    }
  }

  lemma {:induction false} ChunkCount(data: seq<Byte>)
    ensures |Chunks(data)| == ChunkTotal(|data|)
    decreases |data|
  {
    if data != [] {
      var n := Min(|data|, MaxFileChunk);
      ChunkCount(data[n..]);
    }
  }

  /** Every chunk is non-empty and at most MaxFileChunk bytes; every chunk but
      the last is exactly MaxFileChunk bytes. */
  lemma {:induction false} ChunkSizes(data: seq<Byte>)
    ensures forall i :: 0 <= i < |Chunks(data)| ==>
      0 < |Chunks(data)[i]| <= MaxFileChunk &&
      (i + 1 < |Chunks(data)| ==> |Chunks(data)[i]| == MaxFileChunk)
    decreases |data|
  {
    if data != [] {
      var n := Min(|data|, MaxFileChunk);
      ChunkSizes(data[n..]);
      var c := Chunks(data);
      assert c == [data[..n]] + Chunks(data[n..]);
      forall i | 0 <= i < |c|
        ensures 0 < |c[i]| <= MaxFileChunk && (i + 1 < |c| ==> |c[i]| == MaxFileChunk)
      {
        if i > 0 {
          assert c[i] == Chunks(data[n..])[i - 1];
        } else if 1 < |c| {
          assert data[n..] != [];
        }
      }
    }
  }

  /** The first k chunks are the file's first BytesAfter(|data|, k) bytes: the
      chunks follow each other in file order with no gap and no overlap. */
  lemma {:induction false} SentPrefix(data: seq<Byte>, k: nat)
    requires k <= |Chunks(data)|
    ensures Flatten(Chunks(data)[..k]) == data[..BytesAfter(|data|, k)]
    decreases |data|
  {
    if k > 0 {
      var n := Min(|data|, MaxFileChunk);
      var rest := data[n..];
      SentPrefix(rest, k - 1);
      var c := Chunks(data);
      assert c[..k] == [data[..n]] + Chunks(rest)[..k - 1];
      assert Flatten(c[..k]) == data[..n] + rest[..BytesAfter(|rest|, k - 1)];
      assert BytesAfter(|data|, k) == n + BytesAfter(|rest|, k - 1);
      assert data[..BytesAfter(|data|, k)] == data[..n] + rest[..BytesAfter(|rest|, k - 1)];
    }
  }

  /** Chunk i starts where the first i chunks end and is the next
      min(MaxFileChunk, remaining) bytes of the file; there is a chunk i
      exactly when those first i chunks do not reach the end of the file. */
  lemma ChunkAt(data: seq<Byte>, i: nat)
    ensures i < |Chunks(data)| <==> BytesAfter(|data|, i) < |data|
    ensures i < |Chunks(data)| ==>
      var start := BytesAfter(|data|, i);
      BytesAfter(|data|, i + 1) == start + Min(MaxFileChunk, |data| - start) &&
      Chunks(data)[i] == data[start..BytesAfter(|data|, i + 1)]
  {
    ChunkCount(data);
    if i < |Chunks(data)| {
      var c := Chunks(data);
      SentPrefix(data, i);
      SentPrefix(data, i + 1);
      assert c[..i + 1] == c[..i] + [c[i]];
      FlattenAppend(c[..i], [c[i]]);
      assert Flatten([c[i]]) == c[i];
      var start, end := BytesAfter(|data|, i), BytesAfter(|data|, i + 1);
      assert data[..end] == data[..start] + c[i];
      assert data[start..end] == data[..end][start..];
    }
  }

  /** Scenario: a file of 2,500,000 bytes goes out as three chunks of
      1,000,000, 1,000,000 and 500,000 bytes. */
  lemma ThreeChunkFile(data: seq<Byte>)
    requires |data| == 2500000
    ensures |Chunks(data)| == 3
    ensures |Chunks(data)[0]| == 1000000 && |Chunks(data)[1]| == 1000000
    ensures |Chunks(data)[2]| == 500000
  {
    ChunkCount(data);
    ChunkSizes(data);
    SentPrefix(data, 2);
    var c := Chunks(data);
    assert c == c[..2] + [c[2]];
    FlattenAppend(c[..2], [c[2]]);
    ChunksFlatten(data);
    assert Flatten([c[2]]) == c[2];
  }

  // ---------------------------------------------------------------------------
  // The connection as the loop observes it

  /** The socket's connection state now, and the states that the following
      rounds of event processing will leave it in: one round for the name
      block's `waitForBytesWritten`, then one per chunk covering that chunk's
      `waitForBytesWritten` and the `QApplication::processEvents()` after it. `pending` is an oracle for what the network and
      the user do while the file is being sent; once it is used up the state
      stays as it is. */
  datatype Link = Link(connected: bool, pending: seq<bool>)

  /** One round of event processing. */
  function Step(link: Link): (r: Link)
    ensures |r.pending| == if link.pending == [] then 0 else |link.pending| - 1
  {
    if link.pending == [] then link else Link(link.pending[0], link.pending[1..])
  }

  /** The link after `rounds` rounds of event processing. */
  function Advance(link: Link, rounds: nat): (r: Link)
    decreases rounds
  {
    if rounds == 0 then link else Advance(Step(link), rounds - 1)
  }

  lemma {:induction false} AdvanceStep(link: Link, rounds: nat)
    ensures Advance(link, rounds + 1) == Step(Advance(link, rounds))
    decreases rounds
  {
    if rounds > 0 {
      AdvanceStep(Step(link), rounds - 1);
    }
  }

  /** How many of `available` chunks the loop sends: it sends one each time it
      finds the socket connected and the file not at its end, and one round of
      event processing follows every chunk. */
  function ChunksSent(link: Link, available: nat): (k: nat)
    ensures k <= available
    decreases available
  {
    if available == 0 || !link.connected then 0
    else 1 + ChunksSent(Step(link), available - 1)
  }

  /** The socket was seen connected at each of the first k checks of the loop. */
  predicate ConnectedBefore(link: Link, k: nat)
  {
    forall j :: 0 <= j < k ==> Advance(link, j).connected
  }

  /** The halting rule, in both directions: exactly k chunks are sent when the
      socket was seen connected before each of them and, unless all chunks
      went out, was seen disconnected at the check before chunk k + 1. */
  lemma {:induction false} ChunksSentExactly(link: Link, available: nat, k: nat)
    ensures ChunksSent(link, available) == k <==>
      k <= available && ConnectedBefore(link, k) &&
      (k < available ==> !Advance(link, k).connected)
    decreases available
  {
    assert Advance(link, 0) == link;
    if available > 0 && link.connected && k > 0 {
      var next := Step(link);
      ChunksSentExactly(next, available - 1, k - 1);
      assert ConnectedBefore(link, k) <==> ConnectedBefore(next, k - 1) by {
        if ConnectedBefore(next, k - 1) {
          forall j | 0 <= j < k
            ensures Advance(link, j).connected
          {
            if j > 0 {
              assert Advance(link, j) == Advance(next, j - 1);
            }
          }
        }
        if ConnectedBefore(link, k) {
          forall j | 0 <= j < k - 1
            ensures Advance(next, j).connected
          {
            assert Advance(link, j + 1) == Advance(next, j);
          }
        }
      }
      assert Advance(link, k) == Advance(next, k - 1);
      assert ChunksSent(link, available) == 1 + ChunksSent(next, available - 1);
    }
  }

  /** Once the loop has seen the socket disconnected, no later chunk is sent. */
  lemma HaltsOnDisconnect(link: Link, available: nat, j: nat)
    requires j <= available
    requires !Advance(link, j).connected
    ensures ChunksSent(link, available) <= j
  {
    var k := ChunksSent(link, available);
    ChunksSentExactly(link, available, k);
  }

  // ---------------------------------------------------------------------------
  // Progress

  /** The progress value emitted once `total` of `size` bytes are written, as
      an integer: floor(total * 100 / size). */
  function Percent(total: nat, size: nat): (p: nat)
    requires size > 0
  {
    total * 100 / size
  }

  lemma PercentBounds(total: nat, size: nat)
    requires 0 < size && total <= size
    ensures Percent(total, size) <= 100
    ensures Percent(total, size) == 100 <==> total == size
  {
    var q := Percent(total, size);
    assert size * q <= total * 100 < size * (q + 1);
    MulLess(size, 100, q);
    MulLess(size, q, 100);
    MulLess(size, 100, q + 1);
  }

  /** Multiplying by a positive factor keeps strict order, both ways. */
  lemma MulLess(d: nat, x: nat, y: nat)
    requires d > 0
    ensures d * x < d * y <==> x < y
  {
    if x < y {
      assert d * y - d * x == d * (y - x);
    } else {
      assert d * x - d * y == d * (x - y);
    }
  }

  lemma PercentMonotone(a: nat, b: nat, size: nat)
    requires 0 < size && a <= b
    ensures Percent(a, size) <= Percent(b, size)
  {
    var qa, qb := Percent(a, size), Percent(b, size);
    assert size * qa <= a * 100 && b * 100 < size * (qb + 1);
    MulLess(size, qa, qb + 1);
  }

  /** The values emitted after the first `chunks` chunks of a file of `size`
      bytes: one per chunk, in order. */
  function Progress(size: nat, chunks: nat): (r: seq<nat>)
    requires size > 0 || chunks == 0
    ensures |r| == chunks
  {
    if chunks == 0 then []
    else Progress(size, chunks - 1) + [Percent(BytesAfter(size, chunks), size)]
  }

  lemma {:induction false} ProgressAt(size: nat, chunks: nat, i: nat)
    requires size > 0 && i < chunks
    ensures Progress(size, chunks)[i] == Percent(BytesAfter(size, i + 1), size)
  {
    if i < chunks - 1 {
      ProgressAt(size, chunks - 1, i);
    }
  }

  /** Every emitted value lies in 0..100 and none is smaller than an earlier one. */
  lemma ProgressMonotone(size: nat, chunks: nat)
    requires size > 0
    ensures forall i :: 0 <= i < chunks ==> Progress(size, chunks)[i] <= 100
    ensures forall i, j :: 0 <= i <= j < chunks ==> Progress(size, chunks)[i] <= Progress(size, chunks)[j]
  {
    var p := Progress(size, chunks);
    forall i | 0 <= i < chunks
      ensures p[i] <= 100
    {
      ProgressAt(size, chunks, i);
      PercentBounds(BytesAfter(size, i + 1), size);
    }
    forall i, j | 0 <= i <= j < chunks
      ensures p[i] <= p[j]
    {
      ProgressAt(size, chunks, i);
      ProgressAt(size, chunks, j);
      PercentMonotone(BytesAfter(size, i + 1), BytesAfter(size, j + 1), size);
    }
  }

  /** The last value emitted is 100 exactly when the last chunk of the file
      has been sent. */
  lemma ProgressComplete(size: nat, chunks: nat)
    requires 0 < chunks <= ChunkTotal(size)
    ensures Progress(size, chunks)[chunks - 1] == 100 <==> chunks == ChunkTotal(size)
  {
    ProgressAt(size, chunks, chunks - 1);
    PercentBounds(BytesAfter(size, chunks), size);
  }

  // ---------------------------------------------------------------------------
  // A whole session

  /** The link after a `waitForBytesWritten`: on a connected socket the wait
      processes the socket's events, which may change its state; on one that
      is not connected it returns at once. */
  function AfterWait(link: Link): (r: Link)
  {
    if link.connected then Step(link) else link
  }

  /** The chunks one run of sendFile sends for file contents `data`, starting
      from `link`: the loop begins after the name block's wait. */
  function SentChunks(data: seq<Byte>, link: Link): (sent: seq<seq<Byte>>)
  {
    Chunks(data)[..ChunksSent(AfterWait(link), |Chunks(data)|)]
  }

  /** The blocks written during one run: nothing when the socket is not
      connected to begin with, otherwise the name block and then one frame
      per chunk sent. */
  function SessionBlocks(name: Text, data: seq<Byte>, link: Link): (blocks: seq<seq<Byte>>)
  {
    if link.connected then [NameBlock(name)] + Frames(SentChunks(data, link)) else []
  }

  /** What one more iteration of the sending loop establishes about the file:
      given that chunk i exists and the loop has read `position` bytes,
      emitted `progress` and written `frames`, reading `readBytes` more and
      writing them as one frame yields the state after i + 1 chunks. */
  lemma SendOneMore(data: seq<Byte>, i: nat, position: nat,
                    progress: seq<nat>, frames: seq<seq<Byte>>, readBytes: nat)
    requires i < |Chunks(data)| && position == BytesAfter(|data|, i)
    requires progress == Progress(|data|, i) && frames == FramesUpTo(data, i)
    requires readBytes == Min(MaxFileChunk, |data| - position)
    ensures 0 < readBytes && position + readBytes == BytesAfter(|data|, i + 1) <= |data|
    ensures position + readBytes < |data| <==> i + 1 < |Chunks(data)|
    ensures progress + [Percent(position + readBytes, |data|)] == Progress(|data|, i + 1)
    ensures frames + [EncodeBE(readBytes, 8) + data[position..position + readBytes]] == FramesUpTo(data, i + 1)
  {
    ChunkAt(data, i);
    ChunkAt(data, i + 1);
    FramesUpToStep(data, i, data[position..position + readBytes]);
  }

  /** The loop sees the socket connected at round i, so it was seen connected
      at every round up to i + 1. */
  lemma ConnectedOneMore(link: Link, i: nat)
    requires ConnectedBefore(link, i) && Advance(link, i).connected
    ensures ConnectedBefore(link, i + 1) && Advance(link, i + 1) == Step(Advance(link, i))
  {
    AdvanceStep(link, i);
  }

  lemma FramesUpToStep(data: seq<Byte>, i: nat, chunk: seq<Byte>)
    requires i < |Chunks(data)| && Chunks(data)[i] == chunk
    ensures FramesUpTo(data, i) + [EncodeBE(|chunk|, 8) + chunk] == FramesUpTo(data, i + 1)
  {
  }

  /** The frames of the first i chunks, built up one chunk at a time as the
      sending loop writes them. This is Frames(Chunks(data)[..i]) again
      (FramesUpToPrefix); it exists so that the loop invariant does not carry
      the quantifier in Frames' contract, which keeps the loop's proof cheap. */
  function FramesUpTo(data: seq<Byte>, i: nat): (frames: seq<seq<Byte>>)
    requires i <= |Chunks(data)|
  {
    if i == 0 then [] else FramesUpTo(data, i - 1) + [Frame(Chunks(data)[i - 1])]
  }

  lemma {:induction false} FramesUpToPrefix(data: seq<Byte>, i: nat)
    requires i <= |Chunks(data)|
    ensures FramesUpTo(data, i) == Frames(Chunks(data)[..i])
  {
    if i > 0 {
      var c := Chunks(data);
      FramesUpToPrefix(data, i - 1);
      assert c[..i] == c[..i - 1] + [c[i - 1]];
      assert Frames(c[..i]) == Frames(c[..i - 1]) + [Frame(c[i - 1])];
    }
  }

  /** An empty file: the run writes the name block and nothing else, and
      emits no progress value, so nothing is divided by its size. */
  lemma EmptyFile(name: Text, link: Link)
    ensures ChunksSent(link, |Chunks([])|) == 0
    ensures SessionBlocks(name, [], link) == if link.connected then [NameBlock(name)] else []
    ensures Progress(0, 0) == []
  {
  }

  /** End to end: the bytes one run puts on the wire decode to the file name
      and to a prefix of the file; that prefix is the whole file unless the
      connection was seen down first. */
  lemma SessionOnWire(name: Text, data: seq<Byte>, link: Link)
    requires link.connected && 2 * |name| < U32Bound
    ensures var sent := SentChunks(data, link);
      var k := |sent|;
      DecodeTransfer(Flatten(SessionBlocks(name, data, link))) == Ok((name, sent)) &&
      Flatten(sent) == data[..BytesAfter(|data|, k)] &&
      (BytesAfter(|data|, k) == |data| <==> k == |Chunks(data)|)
  {
    var chunks := Chunks(data);
    var k := ChunksSent(AfterWait(link), |chunks|);
    var sent := chunks[..k];
    ChunkSizes(data);
    ChunkCount(data);
    assert forall i :: 0 <= i < |sent| ==> |sent[i]| < U64Bound by {
      forall i | 0 <= i < |sent| ensures |sent[i]| < U64Bound {
        assert sent[i] == chunks[i];
      }
    }
    TransferRoundTrip(name, sent);
    SentPrefix(data, k);
  }

  /** A connected start does not guarantee any chunk: if the name block's wait
      sees the connection drop, the run writes the name block and nothing else. */
  lemma NameBlockOnly(name: Text, data: seq<Byte>, link: Link)
    requires link.connected && !Step(link).connected
    ensures SentChunks(data, link) == []
    ensures SessionBlocks(name, data, link) == [NameBlock(name)]
  {
    assert Frames([]) == [];
  }

  /** A run cut short sends only full chunks of MaxFileChunk bytes. So a stream
      whose last chunk is shorter than that is complete; a stream of full
      chunks only is either a complete file whose size is a multiple of
      MaxFileChunk or a run cut short, and the receiver cannot tell which. */
  lemma {:induction false} CutShortSendsFullChunks(data: seq<Byte>, link: Link)
    ensures var sent := SentChunks(data, link);
      |sent| < |Chunks(data)| ==> forall i :: 0 <= i < |sent| ==> |sent[i]| == MaxFileChunk
  {
    var sent := SentChunks(data, link);
    ChunkSizes(data);
    forall i | 0 <= i < |sent| && |sent| < |Chunks(data)|
      ensures |sent[i]| == MaxFileChunk
    {
      assert sent[i] == Chunks(data)[i];
    }
  }
}
