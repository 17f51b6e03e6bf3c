/**
 RTMP messages as chunks: what the writer puts on the wire and what the reader
 makes of it, as functions of their per-chunk-stream contexts.
 */
module RtmpStream {
  import opened Common
  import opened ByteOrder
  import opened RtmpChunk

  const DEFAULT_CHUNK_SIZE := 128
  const SET_CHUNK_SIZE_TYPE: byte := 1
  const PROTOCOL_CHUNK_STREAM_ID := 2

  datatype RawMessage = RawMessage(
    msgType: byte,
    streamId: nat,
    csId: nat,
    timestamp: nat,
    payload: seq<byte>)

  // ---- Writer ----

  /** The last header sent on a chunk stream, and the timestamp of its message. */
  datatype WriterContext = WriterContext(header: VirtualHeader, timestamp: nat)

  type WriterContexts = map<nat, WriterContext>

  function Lookup<T>(m: map<nat, T>, k: nat): Option<T> {
    if k in m then Some(m[k]) else None
  }

  function SaturatingSub(a: nat, b: nat): nat {
    if a < b then 0 else a - b
  }

  function Clamp24(v: nat): nat {
    if v >= EXTENDED then EXTENDED else v
  }

  /** Picks the shortest header from which the reader can restore the message's fields. */
  function ResolveHeader(ctx: Option<WriterContext>, m: RawMessage): MessageHeader {
    if ctx == None then FullHeader(m.timestamp, |m.payload|, m.msgType, m.streamId)
    else
      var prev := ctx.value.header;
      var delta := SaturatingSub(m.timestamp, ctx.value.timestamp);
      var sameTimestamp :=
        (prev.timestamp.HasExtended() && delta >= EXTENDED)
        || (!prev.timestamp.HasExtended() && prev.timestamp.value == delta);
      if prev.streamId != m.streamId then
        FullHeader(Clamp24(m.timestamp), |m.payload|, m.msgType, m.streamId)
      else if prev.msgLen != |m.payload| || prev.msgType != m.msgType then
        NoStreamIdHeader(Clamp24(delta), |m.payload|, m.msgType)
      else if !sameTimestamp then TimestampOnlyHeader(Clamp24(delta))
      else EmptyHeader
  }

  function ResolveExtended(ctx: Option<WriterContext>, h: MessageHeader, timestamp: nat): Option<nat> {
    if ctx == None then if timestamp >= EXTENDED then Some(timestamp) else None
    else
      var v := if h.FullHeader? then timestamp else SaturatingSub(timestamp, ctx.value.timestamp);
      if v >= EXTENDED then Some(v) else None
  }

  function ExtendedBytes(ext: Option<nat>): seq<byte> {
    if ext == None then [] else Be32(ext.value)
  }

  /** One chunk: base header, message header, extended timestamp, payload. */
  function ChunkBytes(csId: nat, h: MessageHeader, ext: Option<nat>, part: seq<byte>): seq<byte>
    requires 2 <= csId
  {
    WriteBase(BaseHeader(TypeOf(h), csId)).value + (WriteHeader(h) + (ExtendedBytes(ext) + part))
  }

  /** The payload cut into chunks; only the first carries the message's header. */
  function Chunks(csId: nat, h: MessageHeader, ext: Option<nat>, payload: seq<byte>, size: nat): seq<byte>
    requires 2 <= csId && 1 <= size
    decreases |payload|
  {
    if payload == [] then []
    else
      var n := Min(|payload|, size);
      ChunkBytes(csId, h, ext, payload[..n]) + Chunks(csId, EmptyHeader, ext, payload[n..], size)
  }

  datatype WriteOutcome = WriteOutcome(contexts: WriterContexts, result: Result<seq<byte>, string>)

  /**
   Writes one message. The context moves on before any byte is written, also for
   an empty payload, of which nothing is written, and for a reserved chunk stream.
   */
  function WriteMessage(contexts: WriterContexts, size: nat, m: RawMessage): WriteOutcome
    requires 1 <= size
  {
    var ctx := Lookup(contexts, m.csId);
    var h := ResolveHeader(ctx, m);
    var prev := if ctx == None then None else Some(ctx.value.header);
    var contexts' := contexts[m.csId := WriterContext(Complete(prev, h).value, m.timestamp)];
    WriteOutcome(
      contexts',
      if m.payload != [] && m.csId < 2 then Err(WriteBase(BaseHeader(TypeOf(h), m.csId)).error)
      else Ok(if m.payload == [] then [] else Chunks(m.csId, h, ResolveExtended(ctx, h, m.timestamp), m.payload, size)))
  }

  // ---- Reader ----

  /** The last header received on a chunk stream, the current timestamp, and the part of a message received so far. */
  datatype ReaderContext = ReaderContext(header: Option<VirtualHeader>, timestamp: nat, payload: seq<byte>)

  type ReaderContexts = map<nat, ReaderContext>

  const FRESH := ReaderContext(None, 0, [])

  function ReaderLookup(contexts: ReaderContexts, csId: nat): ReaderContext {
    if csId in contexts then contexts[csId] else FRESH
  }

  datatype ChunkStep =
    | Starved
    | Malformed
    | Oversized(contexts: ReaderContexts, rest: seq<byte>)
    | Chunk(contexts: ReaderContexts, rest: seq<byte>, message: Option<RawMessage>)

  function WrappingAdd(a: nat, b: nat): (r: nat)
    ensures r < TWO_32
  {
    (a + b) % TWO_32
  }

  /** The timestamp of a message whose last chunk has this header. */
  function ResolveTimestamp(current: nat, t: HeaderTimestamp, ext: nat): nat {
    match t
    case Timestamp(v) => if v == EXTENDED then ext else v
    case Delta(v) => WrappingAdd(current, if v == EXTENDED then ext else v)
  }

  /**
   Adds the payload of one chunk to its chunk stream; the last one completes the
   message. A header that makes the message shorter than what was received of it
   is an error, reported when the chunk has already been taken.
   */
  function AddChunk(contexts: ReaderContexts, csId: nat, h: VirtualHeader, ext: nat, part: seq<byte>, rest: seq<byte>): ChunkStep {
    var ctx := ReaderLookup(contexts, csId);
    var payload := ctx.payload + part;
    if |payload| < h.msgLen then
      Chunk(contexts[csId := ReaderContext(Some(h), ctx.timestamp, payload)], rest, None)
    else if |payload| > h.msgLen then
      Oversized(contexts[csId := ReaderContext(Some(h), ctx.timestamp, payload)], rest)
    else
      var timestamp := ResolveTimestamp(ctx.timestamp, h.timestamp, ext);
      Chunk(contexts[csId := ReaderContext(Some(h), timestamp, [])], rest,
            Some(RawMessage(h.msgType, h.streamId, csId, timestamp, payload)))
  }

  /** Takes one chunk off the front of the data, or nothing if it has not all arrived. */
  function ReadChunk(contexts: ReaderContexts, size: nat, data: seq<byte>): ChunkStep {
    var base := ReadBase(data);
    if base == NotEnoughData then Starved
    else
      var header := ReadHeader(base.value.fmt, base.rest);
      if header == NotEnoughData then Starved
      else
        ReadPayload(contexts, size, base.value.csId, header.value, header.rest)
  }

  /** The extended timestamp, where the header has the mark of one. */
  function ExtendedFor(h: VirtualHeader, data: seq<byte>): Parsed<nat> {
    if h.timestamp.HasExtended() then ReadExtended(data) else Parsed(0, data)
  }

  function ReadPayload(contexts: ReaderContexts, size: nat, csId: nat, h: MessageHeader, data: seq<byte>): ChunkStep {
    var ctx := ReaderLookup(contexts, csId);
    var complete := Complete(ctx.header, h);
    if complete == None then Malformed
    else
      var extended := ExtendedFor(complete.value, data);
      if extended == NotEnoughData then Starved
      else
        var n := Min(size, SaturatingSub(complete.value.msgLen, |ctx.payload|));
        if |extended.rest| < n then Starved
        else AddChunk(contexts, csId, complete.value, extended.value, extended.rest[..n], extended.rest[n..])
  }

  /** A chunk takes at least its base header. */
  lemma ReadChunkConsumes(contexts: ReaderContexts, size: nat, data: seq<byte>)
    ensures ReadChunk(contexts, size, data).Chunk? ==> |ReadChunk(contexts, size, data).rest| < |data|
  {
    var base := ReadBase(data);
    if base != NotEnoughData {
      var header := ReadHeader(base.value.fmt, base.rest);
      if header != NotEnoughData {
        ReadPayloadShortens(contexts, size, base.value.csId, header.value, header.rest);
      }
    }
  }

  lemma ReadPayloadShortens(contexts: ReaderContexts, size: nat, csId: nat, h: MessageHeader, data: seq<byte>)
    ensures var step := ReadPayload(contexts, size, csId, h, data);
            step.Chunk? ==> |step.rest| <= |data|
  {
  }

  datatype ReadOutcome =
    | OutOfData(contexts: ReaderContexts, rest: seq<byte>)
    | Broken
    | Message(contexts: ReaderContexts, rest: seq<byte>, message: RawMessage)

  /** Reads chunks until one completes a message. */
  function ReadMessage(contexts: ReaderContexts, size: nat, data: seq<byte>): (r: ReadOutcome)
    ensures r.Message? ==> |r.rest| < |data|
    ensures r.OutOfData? ==> |r.rest| <= |data|
    decreases |data|
  {
    ReadChunkConsumes(contexts, size, data);
    match ReadChunk(contexts, size, data)
    case Starved => OutOfData(contexts, data)
    case Malformed => Broken
    case Oversized(_, _) => Broken
    case Chunk(contexts', rest, message) =>
      if message == None then ReadMessage(contexts', size, rest)
      else Message(contexts', rest, message.value)
  }
}
