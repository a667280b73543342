/** The bytes UITcpClient::sendFile puts on the socket, as QDataStream lays them
    out (stream version Qt_5_0, default big-endian byte order), and a receiver-side
    decoder used to state what those bytes mean. */
module Wire {

  type Byte = b: int | 0 <= b < 0x100

  /** One UTF-16 code unit: a QString is a sequence of these. */
  type CodeUnit = u: int | 0 <= u < 0x1_0000

  type Text = seq<CodeUnit>

  const U64Bound: nat := 0x1_0000_0000_0000_0000
  const U32Bound: nat := 0x1_0000_0000

  datatype DecodeError = TruncatedFrame | MalformedName

  datatype Result<+T> = Ok(value: T) | Err(error: DecodeError)

  function Pow256(width: nat): (r: nat)
    ensures r > 0
  {
    if width == 0 then 1 else 256 * Pow256(width - 1)
  }

  lemma Pow256Widths()
    ensures Pow256(2) == 0x1_0000 && Pow256(4) == U32Bound && Pow256(8) == U64Bound
  {
    assert Pow256(1) == 0x100;
    assert Pow256(2) == 0x1_0000;
    assert Pow256(3) == 0x100_0000;
    assert Pow256(4) == U32Bound;
    assert Pow256(5) == 0x100_0000_0000;
    assert Pow256(6) == 0x1_0000_0000_0000;
    assert Pow256(7) == 0x100_0000_0000_0000;
  }

  /** The `width` low-order bytes of `n`, most significant first: how QDataStream
      writes an unsigned integer of `width` bytes. Higher bytes are dropped, as
      a cast to that width drops them. */
  function EncodeBE(n: nat, width: nat): (r: seq<Byte>)
    ensures |r| == width
  {
    if width == 0 then [] else EncodeBE(n / 256, width - 1) + [n % 256]
  }

  /** The unsigned value of big-endian bytes `s`. */
  function DecodeBE(s: seq<Byte>): (n: nat)
    ensures n < Pow256(|s|)
  {
    if s == [] then 0 else DecodeBE(s[..|s| - 1]) * 256 + s[|s| - 1]
  }

  /** Every value that fits in `width` bytes survives encoding. */
  lemma {:induction false} DecodeEncode(n: nat, width: nat)
    requires n < Pow256(width)
    ensures DecodeBE(EncodeBE(n, width)) == n
  {
    if width > 0 {
      var high := EncodeBE(n / 256, width - 1);
      assert EncodeBE(n, width) == high + [n % 256];
      assert EncodeBE(n, width)[..width - 1] == high;
      DecodeEncode(n / 256, width - 1);
    }
  }

  /** Every byte string is the encoding of its value. */
  lemma {:induction false} EncodeDecode(s: seq<Byte>)
    ensures EncodeBE(DecodeBE(s), |s|) == s
  {
    if s != [] {
      var init := s[..|s| - 1];
      var d := DecodeBE(init);
      assert (d * 256 + s[|s| - 1]) / 256 == d;
      assert (d * 256 + s[|s| - 1]) % 256 == s[|s| - 1];
      EncodeDecode(init);
      assert s == init + [s[|s| - 1]];
    }
  }

  lemma AppendAssociates<T>(a: seq<T>, b: seq<T>, c: seq<T>)
    ensures (a + b) + c == a + (b + c)
  {
  }

  lemma SplitAt<T>(s: seq<T>, n: nat, front: seq<T>)
    requires n <= |s| && s[..n] == front
    ensures s == front + s[n..]
  {
    assert s == s[..n] + s[n..];
  }

  lemma SliceJoin<T>(s: seq<T>, i: nat, j: nat)
    requires i <= j <= |s|
    ensures s[..j] == s[..i] + s[i..j]
  {
  }

  function Flatten<T>(blocks: seq<seq<T>>): (r: seq<T>)
  {
    if blocks == [] then [] else blocks[0] + Flatten(blocks[1..])
  }

  lemma {:induction false} FlattenAppend<T>(a: seq<seq<T>>, b: seq<seq<T>>)
    ensures Flatten(a + b) == Flatten(a) + Flatten(b)
  {
    if a == [] {
      assert a + b == b;
    } else {
      assert (a + b)[1..] == a[1..] + b;
      FlattenAppend(a[1..], b);
    }
  }

  // ---------------------------------------------------------------------------
  // Chunk frames: the chunk length as a quint64, then the chunk's raw bytes

  /** A chunk block: the payload length as a big-endian quint64, then the raw payload. */
  function Frame(payload: seq<Byte>): (r: seq<Byte>)
    ensures |r| == 8 + |payload|
  {
    EncodeBE(|payload|, 8) + payload
  }

  /** A frame starts with 8 bytes whose value is the payload length, and the
      payload follows unchanged. */
  lemma FrameLayout(payload: seq<Byte>)
    requires |payload| < U64Bound
    ensures DecodeBE(Frame(payload)[..8]) == |payload|
    ensures Frame(payload)[8..] == payload
  {
    Pow256Widths();
    assert Frame(payload)[..8] == EncodeBE(|payload|, 8);
    DecodeEncode(|payload|, 8);
  }

  function Frames(payloads: seq<seq<Byte>>): (r: seq<seq<Byte>>)
    ensures |r| == |payloads|
    ensures forall i :: 0 <= i < |payloads| ==> r[i] == Frame(payloads[i])
  {
    seq(|payloads|, i requires 0 <= i < |payloads| => Frame(payloads[i]))
  }

  /** Receiver side: split one frame off the front of `s`. Any decoded frame
      re-encodes to exactly the bytes it was read from. */
  function DecodeFrame(s: seq<Byte>): (r: Result<(seq<Byte>, seq<Byte>)>)
    ensures r.Ok? ==> s == Frame(r.value.0) + r.value.1
    ensures r.Err? ==> r.error == TruncatedFrame
  {
    if |s| < 8 then Err(TruncatedFrame)
    else
      var length := DecodeBE(s[..8]);
      if |s| - 8 < length then Err(TruncatedFrame)
      else
        EncodeDecode(s[..8]);
        assert s == s[..8] + s[8..8 + length] + s[8 + length..];
        Ok((s[8..8 + length], s[8 + length..]))
  }

  /** Decoding a frame gives back its payload and leaves what follows it. */
  lemma FrameRoundTrip(payload: seq<Byte>, rest: seq<Byte>)
    requires |payload| < U64Bound
    ensures DecodeFrame(Frame(payload) + rest) == Ok((payload, rest))
  {
    var s := Frame(payload) + rest;
    FrameLayout(payload);
    assert s[..8] == Frame(payload)[..8];
    assert s[8..8 + |payload|] == payload;
    assert s[8 + |payload|..] == rest;
  }

  /** A frame cut short anywhere is refused as truncated. */
  lemma FramePrefixTruncated(payload: seq<Byte>, cut: nat)
    requires |payload| < U64Bound
    requires cut < |Frame(payload)|
    ensures DecodeFrame(Frame(payload)[..cut]) == Err(TruncatedFrame)
  {
    if cut >= 8 {
      FrameLayout(payload);
      assert Frame(payload)[..cut][..8] == Frame(payload)[..8];
    }
  }

  /** Receiver side: a byte stream that is nothing but chunk frames. */
  function DecodeFrames(s: seq<Byte>): (r: Result<seq<seq<Byte>>>)
    ensures r.Ok? ==> s == Flatten(Frames(r.value))
    decreases |s|
  {
    if s == [] then Ok([])
    else
      match DecodeFrame(s)
      case Err(e) => Err(e)
      case Ok((payload, rest)) =>
        match DecodeFrames(rest)
        case Err(e) => Err(e)
        case Ok(payloads) =>
          assert Frames([payload] + payloads) == [Frame(payload)] + Frames(payloads);
          Ok([payload] + payloads)
  }

  lemma {:induction false} FramesRoundTrip(payloads: seq<seq<Byte>>)
    requires forall i :: 0 <= i < |payloads| ==> |payloads[i]| < U64Bound
    ensures DecodeFrames(Flatten(Frames(payloads))) == Ok(payloads)
  {
    if payloads != [] {
      var tail := payloads[1..];
      assert Frames(payloads) == [Frame(payloads[0])] + Frames(tail);
      assert Flatten(Frames(payloads)) == Frame(payloads[0]) + Flatten(Frames(tail));
      FrameRoundTrip(payloads[0], Flatten(Frames(tail)));
      FramesRoundTrip(tail);
      assert [payloads[0]] + tail == payloads;
    }
  }

  // ---------------------------------------------------------------------------
  // The name block: the name's length as a quint64, then the QString itself

  /** UTF-16 code units, each as two big-endian bytes. */
  function EncodeUnits(units: Text): (r: seq<Byte>)
    ensures |r| == 2 * |units|
  {
    if units == [] then [] else EncodeBE(units[0], 2) + EncodeUnits(units[1..])
  }

  function DecodeUnits(s: seq<Byte>): (r: Text)
    requires |s| % 2 == 0
    ensures |r| == |s| / 2
  {
    if s == [] then []
    else
      Pow256Widths();
      [DecodeBE(s[..2])] + DecodeUnits(s[2..])
  }

  lemma {:induction false} UnitsRoundTrip(units: Text)
    ensures DecodeUnits(EncodeUnits(units)) == units
  {
    if units != [] {
      var s := EncodeUnits(units);
      assert s[..2] == EncodeBE(units[0], 2);
      assert s[2..] == EncodeUnits(units[1..]);
      Pow256Widths();
      DecodeEncode(units[0], 2);
      UnitsRoundTrip(units[1..]);
    }
  }

  lemma {:induction false} BytesRoundTrip(s: seq<Byte>)
    requires |s| % 2 == 0
    ensures EncodeUnits(DecodeUnits(s)) == s
  {
    if s != [] {
      Pow256Widths();
      EncodeDecode(s[..2]);
      BytesRoundTrip(s[2..]);
      assert DecodeUnits(s)[1..] == DecodeUnits(s[2..]);
      assert s == s[..2] + s[2..];
    }
  }

  /** QDataStream's serialisation of a non-null QString: a quint32 holding the
      number of BYTES of UTF-16 data, then the code units, big-endian. */
  function SerializeName(name: Text): (r: seq<Byte>)
    ensures |r| == 4 + 2 * |name|
  {
    EncodeBE(2 * |name|, 4) + EncodeUnits(name)
  }

  /** The first block sendFile writes: a quint64 holding the name's length in
      UTF-16 code units (QString::size), then the serialised name. */
  function NameBlock(name: Text): (r: seq<Byte>)
    ensures |r| == 12 + 2 * |name|
  {
    EncodeBE(|name|, 8) + SerializeName(name)
  }

  /** Receiver side: read a name block off the front of `s`. The code-unit count
      must agree with the QString's byte count. */
  function DecodeNameBlock(s: seq<Byte>): (r: Result<(Text, seq<Byte>)>)
    ensures r.Ok? ==> s == NameBlock(r.value.0) + r.value.1
  {
    if |s| < 12 then Err(TruncatedFrame)
    else
      var count := DecodeBE(s[..8]);
      var byteCount := DecodeBE(s[8..12]);
      if |s| - 12 < byteCount then Err(TruncatedFrame)
      else if byteCount != 2 * count then Err(MalformedName)
      else
        NameBlockSplit(s, count);
        Ok((DecodeUnits(s[12..12 + byteCount]), s[12 + byteCount..]))
  }

  lemma Halves(count: nat)
    ensures (2 * count) % 2 == 0 && (2 * count) / 2 == count
  {
  }

  /** A name block header whose counts agree re-encodes to the bytes it was read from. */
  lemma NameBlockSplit(s: seq<Byte>, count: nat)
    requires 12 + 2 * count <= |s|
    requires DecodeBE(s[..8]) == count && DecodeBE(s[8..12]) == 2 * count
    ensures s == NameBlock(DecodeUnits(s[12..12 + 2 * count])) + s[12 + 2 * count..]
  {
    var data := s[12..12 + 2 * count];
    Halves(count);
    var name := DecodeUnits(data);
    BytesRoundTrip(data);
    NameHeaderBytes(s, count);
    NameBlockParts(name, data);
    SliceJoin(s, 12, 12 + 2 * count);
    SplitAt(s, 12 + 2 * count, NameBlock(name));
  }

  lemma NameBlockParts(name: Text, data: seq<Byte>)
    requires EncodeUnits(name) == data
    ensures NameBlock(name) == (EncodeBE(|name|, 8) + EncodeBE(2 * |name|, 4)) + data
  {
    AppendAssociates(EncodeBE(|name|, 8), EncodeBE(2 * |name|, 4), data);
  }

  lemma NameHeaderBytes(s: seq<Byte>, count: nat)
    requires 12 <= |s|
    requires DecodeBE(s[..8]) == count && DecodeBE(s[8..12]) == 2 * count
    ensures s[..12] == EncodeBE(count, 8) + EncodeBE(2 * count, 4)
  {
    EncodeDecode(s[..8]);
    EncodeDecode(s[8..12]);
    assert s[..12] == s[..8] + s[8..12];
  }

  lemma NameBlockRoundTrip(name: Text, rest: seq<Byte>)
    requires 2 * |name| < U32Bound
    ensures DecodeNameBlock(NameBlock(name) + rest) == Ok((name, rest))
  {
    var s := NameBlock(name) + rest;
    var n := |name|;
    Pow256Widths();
    assert s[..8] == EncodeBE(n, 8);
    assert s[8..12] == EncodeBE(2 * n, 4);
    assert s[12..12 + 2 * n] == EncodeUnits(name);
    assert s[12 + 2 * n..] == rest;
    DecodeEncode(n, 8);
    DecodeEncode(2 * n, 4);
    UnitsRoundTrip(name);
  }

  // ---------------------------------------------------------------------------
  // A whole transfer as the server sees it

  /** Receiver side: one name block, then chunk frames up to the end of the stream. */
  function DecodeTransfer(s: seq<Byte>): (r: Result<(Text, seq<seq<Byte>>)>)
    ensures r.Ok? ==> s == NameBlock(r.value.0) + Flatten(Frames(r.value.1))
  {
    match DecodeNameBlock(s)
    case Err(e) => Err(e)
    case Ok((name, rest)) =>
      match DecodeFrames(rest)
      case Err(e) => Err(e)
      case Ok(payloads) => Ok((name, payloads))
  }

  /** What the sender writes, the receiver reads back: the name, then the
      chunk payloads in the order they were sent. */
  lemma TransferRoundTrip(name: Text, payloads: seq<seq<Byte>>)
    requires 2 * |name| < U32Bound
    requires forall i :: 0 <= i < |payloads| ==> |payloads[i]| < U64Bound
    ensures DecodeTransfer(Flatten([NameBlock(name)] + Frames(payloads))) == Ok((name, payloads))
  {
    var body := Flatten(Frames(payloads));
    FlattenAppend([NameBlock(name)], Frames(payloads));
    assert Flatten([NameBlock(name)]) == NameBlock(name);
    NameBlockRoundTrip(name, body);
    FramesRoundTrip(payloads);
  }
}
