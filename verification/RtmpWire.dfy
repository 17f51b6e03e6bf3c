/** What stands on the wire, byte by byte, for a peer that was not written with this writer in mind. */
module RtmpWire {
  import opened Common
  import opened ByteOrder
  import opened RtmpChunk
  import opened RtmpStream
  import opened RtmpConversation
  import opened RtmpClientHistory

  // ---- Layouts (sections 5.3.1.1 to 5.3.1.3 of Adobe RTMP 1.0) ----

  /** Format 0: timestamp, length, type, message stream id; the last little-endian, the others big-endian. */
  function Format0(csId: nat, timestamp: nat, length: nat, msgType: byte, streamId: nat): seq<byte>
    requires csId < 0x40 && timestamp < TWO_24 && length < TWO_24 && streamId < TWO_32
  {
    [csId, timestamp / 0x1_0000, timestamp / 0x100 % 0x100, timestamp % 0x100,
     length / 0x1_0000, length / 0x100 % 0x100, length % 0x100, msgType,
     streamId % 0x100, streamId / 0x100 % 0x100, streamId / 0x1_0000 % 0x100, streamId / 0x100_0000]
  }

  /** Format 1: the message stream id is the one before. */
  function Format1(csId: nat, delta: nat, length: nat, msgType: byte): seq<byte>
    requires csId < 0x40 && delta < TWO_24 && length < TWO_24
  {
    [0x40 + csId, delta / 0x1_0000, delta / 0x100 % 0x100, delta % 0x100,
     length / 0x1_0000, length / 0x100 % 0x100, length % 0x100, msgType]
  }

  /** Format 2: length and type are the ones before, too. */
  function Format2(csId: nat, delta: nat): seq<byte>
    requires csId < 0x40 && delta < TWO_24
  {
    [0x80 + csId, delta / 0x1_0000, delta / 0x100 % 0x100, delta % 0x100]
  }

  /** Format 3: everything is as before. */
  function Format3(csId: nat): seq<byte>
    requires csId < 0x40
  {
    [0xC0 + csId]
  }

  function Word(v: nat): seq<byte>
    requires v < TWO_32
  {
    [v / 0x100_0000, v / 0x1_0000 % 0x100, v / 0x100 % 0x100, v % 0x100]
  }

  lemma WordIs(v: nat)
    requires v < TWO_32
    ensures Be32(v) == Word(v)
  {
    assert v / 0x1_0000 / 0x100 == v / 0x100_0000;
  }

  lemma LittleWordIs(v: nat)
    requires v < TWO_32
    ensures Le32(v) == [v % 0x100, v / 0x100 % 0x100, v / 0x1_0000 % 0x100, v / 0x100_0000]
  {
    assert v / 0x1_0000 / 0x100 == v / 0x100_0000;
  }

  lemma ThreeBytes(v: nat)
    requires v < TWO_24
    ensures Be24(v) == [v / 0x1_0000, v / 0x100 % 0x100, v % 0x100]
  {
  }

  /** How a chunk stream id and a format number begin a chunk. */
  lemma BasicHeader(h: BaseHeader)
    requires 2 <= h.csId <= 0xFFFF + 64
    ensures var fmt := match h.fmt case Full => 0 case NoMessageStreamId => 1 case TimestampOnly => 2 case NoHeader => 3;
            WriteBase(h) ==
              if h.csId < 64 then Ok([0x40 * fmt + h.csId])
              else if h.csId < 320 then Ok([0x40 * fmt, h.csId - 64])
              else Ok([0x40 * fmt + 1, (h.csId - 64) % 0x100, (h.csId - 64) / 0x100])
  {
    if h.csId >= 320 {
      var v := h.csId - 64;
      assert v % 0x1_0000 == v && v / 0x100 % 0x100 == v / 0x100;
      var first := FormatBits(h.fmt) * 0x40 + 1;
      assert [first] + Le16(v % 0x1_0000) == [first, v % 0x100, v / 0x100];
    }
  }

  lemma HeaderLayout(csId: nat, h: MessageHeader)
    requires 2 <= csId < 0x40
    requires match h
             case FullHeader(timestamp, length, _, streamId) => timestamp < TWO_24 && length < TWO_24 && streamId < TWO_32
             case NoStreamIdHeader(delta, length, _) => delta < TWO_24 && length < TWO_24
             case TimestampOnlyHeader(delta) => delta < TWO_24
             case EmptyHeader => true
    ensures WriteBase(BaseHeader(TypeOf(h), csId)).Ok?
    ensures WriteBase(BaseHeader(TypeOf(h), csId)).value + WriteHeader(h)
         == match h
            case FullHeader(timestamp, length, msgType, streamId) => Format0(csId, timestamp, length, msgType, streamId)
            case NoStreamIdHeader(delta, length, msgType) => Format1(csId, delta, length, msgType)
            case TimestampOnlyHeader(delta) => Format2(csId, delta)
            case EmptyHeader => Format3(csId)
  {
    BasicHeader(BaseHeader(TypeOf(h), csId));
    match h {
      case FullHeader(timestamp, length, _, streamId) =>
        ThreeBytes(timestamp);
        ThreeBytes(length);
        LittleWordIs(streamId);
      case NoStreamIdHeader(delta, length, _) =>
        ThreeBytes(delta);
        ThreeBytes(length);
      case TimestampOnlyHeader(delta) => ThreeBytes(delta);
      case EmptyHeader =>
    }
  }

  // ---- Messages ----

  lemma OneChunkOnWire(csId: nat, h: MessageHeader, ext: Option<nat>, payload: seq<byte>, size: nat)
    requires 2 <= csId < 0x40 && 1 <= |payload| <= size
    ensures WriteBase(BaseHeader(TypeOf(h), csId)).Ok?
    ensures Chunks(csId, h, ext, payload, size)
         == WriteBase(BaseHeader(TypeOf(h), csId)).value + WriteHeader(h) + ExtendedBytes(ext) + payload
  {
    ChunkOnWire(csId, h, ext, payload);
    assert payload[..|payload|] == payload && payload[|payload|..] == [];
  }

  /** The first message of a chunk stream has format 0. */
  lemma FirstOnWire(s: Sender, m: RawMessage)
    requires 2 <= m.csId < 0x40 && m.csId !in s.contexts && m.streamId < TWO_32 && m.timestamp < 0xFF_FFFF
    requires 1 <= |m.payload| < TWO_24 && |m.payload| <= s.size
    ensures MessageBytes(s, m) == Format0(m.csId, m.timestamp, |m.payload|, m.msgType, m.streamId) + m.payload
  {
    var h := FullHeader(m.timestamp, |m.payload|, m.msgType, m.streamId);
    HeaderLayout(m.csId, h);
    OneChunkOnWire(m.csId, h, None, m.payload, s.size);
    NoneBetween(WriteBase(BaseHeader(Full, m.csId)).value + WriteHeader(h), m.payload);
  }

  /** Later messages leave out what they have in common with the one before on their chunk stream. */
  lemma LaterOnWire(s: Sender, m: RawMessage, delta: nat)
    requires 2 <= m.csId < 0x40 && m.csId in s.contexts && m.streamId < TWO_32 && m.timestamp < 0xFF_FFFF
    requires 1 <= |m.payload| < TWO_24 && |m.payload| <= s.size
    requires m.timestamp == s.contexts[m.csId].timestamp + delta && !s.contexts[m.csId].header.timestamp.HasExtended()
    ensures var before := s.contexts[m.csId].header;
            MessageBytes(s, m) ==
              (if before.streamId != m.streamId then Format0(m.csId, m.timestamp, |m.payload|, m.msgType, m.streamId)
               else if before.msgLen != |m.payload| || before.msgType != m.msgType then Format1(m.csId, delta, |m.payload|, m.msgType)
               else if before.timestamp.value != delta then Format2(m.csId, delta)
               else Format3(m.csId))
              + m.payload
  {
    var h := ResolveHeader(Some(s.contexts[m.csId]), m);
    HeaderLayout(m.csId, h);
    OneChunkOnWire(m.csId, h, None, m.payload, s.size);
    NoneBetween(WriteBase(BaseHeader(TypeOf(h), m.csId)).value + WriteHeader(h), m.payload);
    assert MessageBytes(s, m) == Chunks(m.csId, h, None, m.payload, s.size);
  }

  /** A time of 2^24 - 1 or more on a new message stream: the field is full, and the time follows the header in four bytes. */
  lemma ExtendedOnWire(s: Sender, m: RawMessage)
    requires 2 <= m.csId < 0x40 && m.csId in s.contexts && s.contexts[m.csId].header.streamId != m.streamId
    requires m.streamId < TWO_32 && 0xFF_FFFF <= m.timestamp < TWO_32
    requires 1 <= |m.payload| < TWO_24 && |m.payload| <= s.size
    ensures MessageBytes(s, m)
         == Format0(m.csId, 0xFF_FFFF, |m.payload|, m.msgType, m.streamId) + Word(m.timestamp) + m.payload
  {
    var h := FullHeader(0xFF_FFFF, |m.payload|, m.msgType, m.streamId);
    HeaderLayout(m.csId, h);
    WordIs(m.timestamp);
    OneChunkOnWire(m.csId, h, Some(m.timestamp), m.payload, s.size);
  }

  /** At the start of a connection chunks hold 128 bytes; what is over follows in a chunk of format 3. */
  lemma TwoChunksOnWire(m: RawMessage)
    requires 2 <= m.csId < 0x40 && m.streamId < TWO_32 && m.timestamp < 0xFF_FFFF && 128 < |m.payload| <= 256
    ensures MessageBytes(START, m)
         == Format0(m.csId, m.timestamp, |m.payload|, m.msgType, m.streamId) + m.payload[..128]
            + (Format3(m.csId) + m.payload[128..])
  {
    var h := FullHeader(m.timestamp, |m.payload|, m.msgType, m.streamId);
    var first, rest := m.payload[..128], m.payload[128..];
    ChunkOnWire(m.csId, h, None, first);
    HeaderLayout(m.csId, h);
    HeaderLayout(m.csId, EmptyHeader);
    OneChunkOnWire(m.csId, EmptyHeader, None, rest, 128);
    NoneBetween(Format0(m.csId, m.timestamp, |m.payload|, m.msgType, m.streamId), first);
    NoneBetween(Format3(m.csId), rest);
    assert MessageBytes(START, m) == ChunkBytes(m.csId, h, None, first) + Chunks(m.csId, EmptyHeader, None, rest, 128);
  }

  lemma ChunkOnWire(csId: nat, h: MessageHeader, ext: Option<nat>, part: seq<byte>)
    requires 2 <= csId < 0x40
    ensures WriteBase(BaseHeader(TypeOf(h), csId)).Ok?
    ensures ChunkBytes(csId, h, ext, part) == WriteBase(BaseHeader(TypeOf(h), csId)).value + WriteHeader(h) + ExtendedBytes(ext) + part
  {
    var base := WriteBase(BaseHeader(TypeOf(h), csId)).value;
    assert base + (WriteHeader(h) + (ExtendedBytes(ext) + part)) == base + WriteHeader(h) + ExtendedBytes(ext) + part;
  }

  lemma NoneBetween(a: seq<byte>, b: seq<byte>)
    ensures a + [] + b == a + b
  {
  }

  // ---- Kinds of messages (sections 5.4 and 7.1 of Adobe RTMP 1.0) ----

  /** Control messages go to chunk stream 2 and message stream 0, with types 1, 3 and 5. */
  lemma ControlOnWire(n: nat, encode: Outgoing -> seq<byte>)
    requires n < TWO_32
    ensures MessageBytes(START, IntoRaw(SetChunkSize(n), encode)) == [2, 0, 0, 0, 0, 0, 4, 1, 0, 0, 0, 0] + Word(n)
    ensures MessageBytes(START, IntoRaw(Acknowledgement(n), encode)) == [2, 0, 0, 0, 0, 0, 4, 3, 0, 0, 0, 0] + Word(n)
    ensures MessageBytes(START, IntoRaw(WindowAckSize(n), encode)) == [2, 0, 0, 0, 0, 0, 4, 5, 0, 0, 0, 0] + Word(n)
  {
    WordIs(n);
    ControlFirst(1, Word(n));
    ControlFirst(3, Word(n));
    ControlFirst(5, Word(n));
  }

  /** A ping is answered by event 7 with its timestamp, in a message of type 4. */
  lemma PingResponseOnWire(n: nat, encode: Outgoing -> seq<byte>)
    requires n < TWO_32
    ensures MessageBytes(START, IntoRaw(PingResponse(n), encode)) == [2, 0, 0, 0, 0, 0, 6, 4, 0, 0, 0, 0] + ([0, 7] + Word(n))
  {
    WordIs(n);
    assert Be16(7) == [0, 7];
    ControlFirst(4, [0, 7] + Word(n));
  }

  lemma ControlFirst(msgType: byte, payload: seq<byte>)
    requires 1 <= |payload| <= 100
    ensures MessageBytes(START, RawMessage(msgType, 0, 2, 0, payload))
         == [2, 0, 0, 0, 0, 0, |payload|, msgType, 0, 0, 0, 0] + payload
  {
    FirstOnWire(START, RawMessage(msgType, 0, 2, 0, payload));
  }

  /** Commands and metadata go to chunk stream 3 with types 20 and 18, at time 0. */
  lemma CommandsOnWire(m: Outgoing, encode: Outgoing -> seq<byte>)
    requires m.Connect? || m.CreateStream? || m.DeleteStream? || ((m.Publish? || m.MetaData?) && m.streamId < TWO_32)
    requires 1 <= |encode(m)| <= 128
    ensures MessageBytes(START, IntoRaw(m, encode))
         == Format0(3, 0, |encode(m)|, if m.MetaData? then 18 else 20, if m.Publish? || m.MetaData? then m.streamId else 0) + encode(m)
  {
    FirstOnWire(START, IntoRaw(m, encode));
  }

  /** Audio goes to chunk stream 4 with type 8, video to chunk stream 6 with type 9, both at their own time. */
  lemma MediaOnWire(m: Outgoing, encode: Outgoing -> seq<byte>)
    requires (m.Audio? || m.Video?) && m.streamId < TWO_32 && m.timestamp < 0xFF_FFFF && 1 <= |encode(m)| <= 128
    ensures MessageBytes(START, IntoRaw(m, encode))
         == Format0(if m.Audio? then 4 else 6, m.timestamp, |encode(m)|, if m.Audio? then 8 else 9, m.streamId) + encode(m)
  {
    FirstOnWire(START, IntoRaw(m, encode));
  }
}
