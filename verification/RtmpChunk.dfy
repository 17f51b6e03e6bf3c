/** RTMP chunk headers: how they are written, read, and completed from the header before. */
module RtmpChunk {
  import opened Common
  import opened ByteOrder

  /** 24-bit timestamp fields hold this value when a four-byte extended timestamp follows. */
  const EXTENDED := 0xFF_FFFF

  datatype ChunkType = Full | NoMessageStreamId | TimestampOnly | NoHeader

  datatype BaseHeader = BaseHeader(fmt: ChunkType, csId: nat)

  datatype MessageHeader =
    | FullHeader(timestamp: nat, msgLen: nat, msgType: byte, streamId: nat)
    | NoStreamIdHeader(delta: nat, msgLen: nat, msgType: byte)
    | TimestampOnlyHeader(delta: nat)
    | EmptyHeader

  datatype HeaderTimestamp = Timestamp(value: nat) | Delta(value: nat) {
    predicate HasExtended() {
      value == EXTENDED
    }
  }

  /** A complete header: the fields of this chunk, and those it inherits. */
  datatype VirtualHeader = VirtualHeader(msgLen: nat, msgType: byte, streamId: nat, timestamp: HeaderTimestamp)

  /** A value read from the front of the data, and what follows it. */
  datatype Parsed<T> = NotEnoughData | Parsed(value: T, rest: seq<byte>)

  function FormatBits(t: ChunkType): nat {
    match t
    case Full => 0
    case NoMessageStreamId => 1
    case TimestampOnly => 2
    case NoHeader => 3
  }

  function TypeOfBits(bits: nat): ChunkType {
    if bits == 0 then Full else if bits == 1 then NoMessageStreamId else if bits == 2 then TimestampOnly else NoHeader
  }

  function WriteBase(h: BaseHeader): Result<seq<byte>, string> {
    var bits := FormatBits(h.fmt) * 0x40;
    if h.csId <= 1 then Err("Chunk stream ID 0 and 1 are reserved.")
    else if h.csId <= 63 then Ok([bits + h.csId])
    else if h.csId <= 319 then Ok([bits, h.csId - 64])
    else Ok([bits + 1] + Le16((h.csId - 64) % 0x1_0000))
  }

  function ReadBase(data: seq<byte>): Parsed<BaseHeader> {
    if data == [] then NotEnoughData
    else
      var fmt, marker := TypeOfBits(data[0] / 0x40), data[0] % 0x40;
      if marker == 0 then
        if |data| < 2 then NotEnoughData else Parsed(BaseHeader(fmt, data[1] as nat + 64), data[2..])
      else if marker == 1 then
        if |data| < 3 then NotEnoughData else Parsed(BaseHeader(fmt, ReadLe16(data[1..]) + 64), data[3..])
      else
        Parsed(BaseHeader(fmt, marker), data[1..])
  }

  function TypeOf(h: MessageHeader): ChunkType {
    match h
    case FullHeader(_, _, _, _) => Full
    case NoStreamIdHeader(_, _, _) => NoMessageStreamId
    case TimestampOnlyHeader(_) => TimestampOnly
    case EmptyHeader => NoHeader
  }

  function WriteHeader(h: MessageHeader): seq<byte> {
    match h
    case FullHeader(timestamp, msgLen, msgType, streamId) => Be24(timestamp) + (Be24(msgLen) + ([msgType] + Le32(streamId)))
    case NoStreamIdHeader(delta, msgLen, msgType) => Be24(delta) + (Be24(msgLen) + [msgType])
    case TimestampOnlyHeader(delta) => Be24(delta)
    case EmptyHeader => []
  }

  function ReadHeader(fmt: ChunkType, data: seq<byte>): Parsed<MessageHeader> {
    match fmt
    case Full =>
      if |data| < 11 then NotEnoughData
      else Parsed(FullHeader(ReadBe24(data), ReadBe24(data[3..]), data[6], ReadLe32(data[7..])), data[11..])
    case NoMessageStreamId =>
      if |data| < 7 then NotEnoughData
      else Parsed(NoStreamIdHeader(ReadBe24(data), ReadBe24(data[3..]), data[6]), data[7..])
    case TimestampOnly =>
      if |data| < 3 then NotEnoughData else Parsed(TimestampOnlyHeader(ReadBe24(data)), data[3..])
    case NoHeader => Parsed(EmptyHeader, data)
  }

  function ReadExtended(data: seq<byte>): Parsed<nat> {
    if |data| < 4 then NotEnoughData else Parsed(ReadBe32(data), data[4..])
  }

  /** Completes a header from the one before it; only a full header can be first. */
  function Complete(prev: Option<VirtualHeader>, h: MessageHeader): Option<VirtualHeader> {
    match h
    case FullHeader(timestamp, msgLen, msgType, streamId) =>
      Some(VirtualHeader(msgLen, msgType, streamId, Timestamp(timestamp)))
    case NoStreamIdHeader(delta, msgLen, msgType) =>
      if prev == None then None
      else Some(VirtualHeader(msgLen, msgType, prev.value.streamId, Delta(delta)))
    case TimestampOnlyHeader(delta) =>
      if prev == None then None else Some(prev.value.(timestamp := Delta(delta)))
    case EmptyHeader =>
      if prev == None then None else Some(prev.value.(timestamp := Delta(prev.value.timestamp.value)))
  }

  /** What is left of a header on the wire: the 24-bit fields lose their high bits. */
  function OnWire(h: MessageHeader): MessageHeader {
    match h
    case FullHeader(timestamp, msgLen, msgType, streamId) =>
      FullHeader(timestamp % TWO_24, msgLen % TWO_24, msgType, streamId)
    case NoStreamIdHeader(delta, msgLen, msgType) => NoStreamIdHeader(delta % TWO_24, msgLen % TWO_24, msgType)
    case TimestampOnlyHeader(delta) => TimestampOnlyHeader(delta % TWO_24)
    case EmptyHeader => EmptyHeader
  }

  /** Chunk stream ids survive the one-, two- and three-byte forms alike. */
  lemma BaseRoundTrip(h: BaseHeader, t: seq<byte>)
    requires 2 <= h.csId <= 0xFFFF + 64
    ensures WriteBase(h).Ok? && ReadBase(WriteBase(h).value + t) == Parsed(h, t)
  {
    var bits := FormatBits(h.fmt) * 0x40;
    var data := WriteBase(h).value + t;
    if h.csId > 319 {
      RoundTrip16(h.csId - 64, t);
      assert data[1..] == Le16(h.csId - 64) + t;
      assert data[3..] == t;
    } else if h.csId > 63 {
      assert data[2..] == t;
    } else {
      assert data[1..] == t;
    }
  }

  lemma HeaderRoundTrip(h: MessageHeader, t: seq<byte>)
    requires h.FullHeader? ==> h.streamId < TWO_32
    ensures ReadHeader(TypeOf(h), WriteHeader(h) + t) == Parsed(OnWire(h), t)
  {
    match h
    case FullHeader(timestamp, msgLen, msgType, streamId) => FullRoundTrip(timestamp, msgLen, msgType, streamId, t);
    case NoStreamIdHeader(delta, msgLen, msgType) => NoStreamIdRoundTrip(delta, msgLen, msgType, t);
    case TimestampOnlyHeader(delta) =>
      RoundTrip24(delta, t);
      assert (Be24(delta) + t)[3..] == t;
    case EmptyHeader =>
      assert [] + t == t;
  }

  lemma FullRoundTrip(timestamp: nat, msgLen: nat, msgType: byte, streamId: nat, t: seq<byte>)
    requires streamId < TWO_32
    ensures var h := FullHeader(timestamp, msgLen, msgType, streamId);
            ReadHeader(Full, WriteHeader(h) + t) == Parsed(OnWire(h), t)
  {
    var d2 := [msgType] + (Le32(streamId) + t);
    Fields(Be24(timestamp), Be24(msgLen), msgType, Le32(streamId), t);
    RoundTrip24(timestamp, Be24(msgLen) + d2);
    RoundTrip24(msgLen, d2);
    RoundTrip32(streamId, t);
  }

  lemma Fields(a: seq<byte>, b: seq<byte>, c: byte, d: seq<byte>, t: seq<byte>)
    requires |a| == 3 && |b| == 3 && |d| == 4
    ensures var data := a + (b + ([c] + d)) + t;
            && data == a + (b + ([c] + (d + t)))
            && data[3..] == b + ([c] + (d + t)) && data[6] == c && data[7..] == d + t && data[11..] == t
  {
  }

  lemma NoStreamIdRoundTrip(delta: nat, msgLen: nat, msgType: byte, t: seq<byte>)
    ensures var h := NoStreamIdHeader(delta, msgLen, msgType);
            ReadHeader(NoMessageStreamId, WriteHeader(h) + t) == Parsed(OnWire(h), t)
  {
    var d1 := Be24(msgLen) + ([msgType] + t);
    var data := WriteHeader(NoStreamIdHeader(delta, msgLen, msgType)) + t;
    assert data == Be24(delta) + d1;
    assert data[3..] == d1 && data[6] == msgType && data[7..] == t;
    RoundTrip24(delta, d1);
    RoundTrip24(msgLen, [msgType] + t);
  }

  lemma ExtendedRoundTrip(v: nat, t: seq<byte>)
    requires v < TWO_32
    ensures ReadExtended(Be32(v) + t) == Parsed(v, t)
  {
    RoundTrip32(v, t);
    assert (Be32(v) + t)[4..] == t;
  }
}
