/** The writer and the reader of an RTMP connection as the objects they are. */
module RtmpEndpoints {
  import opened Common
  import opened ByteOrder
  import opened RtmpChunk
  import opened RtmpStream

  class MessageWriter {
    var context: WriterContexts
    var chunkSize: nat

    constructor ()
      ensures context == map[] && chunkSize == DEFAULT_CHUNK_SIZE
    {
      context, chunkSize := map[], DEFAULT_CHUNK_SIZE;
    }

    /** Sends one message, chunk by chunk. A chunk size of 0 would never get through a payload. */
    method WriteMsg(m: RawMessage) returns (wire: Result<seq<byte>, string>)
      requires 1 <= chunkSize
      modifies `context
      ensures WriteOutcome(context, wire) == WriteMessage(old(context), chunkSize, m)
    {
      var ctx := Lookup(context, m.csId);
      var header := ResolveHeader(ctx, m);
      var extended := ResolveExtended(ctx, header, m.timestamp);
      var prev := if ctx == None then None else Some(ctx.value.header);
      context := context[m.csId := WriterContext(Complete(prev, header).value, m.timestamp)];
      ghost var firstHeader := header;
      var payload, sent := m.payload, [];
      while payload != []
        invariant 2 <= m.csId ==>
          sent + Chunks(m.csId, header, extended, payload, chunkSize)
          == Chunks(m.csId, firstHeader, extended, m.payload, chunkSize)
        invariant m.csId < 2 || m.payload == [] ==> header == firstHeader && payload == m.payload && sent == []
        decreases |payload|
      {
        var base := WriteBase(BaseHeader(TypeOf(header), m.csId));
        if base.Err? {
          return Err(base.error);
        }
        var n := Min(|payload|, chunkSize);
        ghost var was := sent;
        sent := sent + (base.value + (WriteHeader(header) + (ExtendedBytes(extended) + payload[..n])));
        assert was + (ChunkBytes(m.csId, header, extended, payload[..n])
                      + Chunks(m.csId, EmptyHeader, extended, payload[n..], chunkSize))
            == sent + Chunks(m.csId, EmptyHeader, extended, payload[n..], chunkSize);
        payload := payload[n..];
        header := EmptyHeader;
      }
      assert sent + [] == sent;
      return Ok(sent);
    }
  }

  class MessageReader {
    var context: ReaderContexts
    var chunkSize: nat
    /** Bytes received and not yet taken. */
    var buffer: seq<byte>

    constructor ()
      ensures context == map[] && chunkSize == DEFAULT_CHUNK_SIZE && buffer == []
    {
      context, chunkSize, buffer := map[], DEFAULT_CHUNK_SIZE, [];
    }

    /** Takes one chunk off the buffer, also one that makes its message too large; without a whole chunk changes nothing. */
    method TryParseMsg() returns (step: ChunkStep)
      modifies `context, `buffer
      ensures step == ReadChunk(old(context), chunkSize, old(buffer))
      ensures step.Chunk? || step.Oversized? ==> context == step.contexts && buffer == step.rest
      ensures step.Starved? || step.Malformed? ==> context == old(context) && buffer == old(buffer)
    {
      var base := ReadBase(buffer);
      if base == NotEnoughData {
        return Starved;
      }
      var header := ReadHeader(base.value.fmt, base.rest);
      if header == NotEnoughData {
        return Starved;
      }
      var ctx := ReaderLookup(context, base.value.csId);
      var complete := Complete(ctx.header, header.value);
      if complete == None {
        return Malformed;
      }
      var h := complete.value;
      var extended := ExtendedFor(h, header.rest);
      if extended == NotEnoughData {
        return Starved;
      }
      var n := Min(chunkSize, SaturatingSub(h.msgLen, |ctx.payload|));
      if |extended.rest| < n {
        return Starved;
      }
      step := AddChunk(context, base.value.csId, h, extended.value, extended.rest[..n], extended.rest[n..]);
      if step.Chunk? || step.Oversized? {
        context, buffer := step.contexts, step.rest;
      }
    }

    /** Takes chunks until one completes a message, the buffer runs dry, or the stream is malformed. */
    method NextMessage() returns (outcome: ReadOutcome)
      modifies `context, `buffer
      ensures outcome == ReadMessage(old(context), chunkSize, old(buffer))
      ensures !outcome.Broken? ==> context == outcome.contexts && buffer == outcome.rest
    {
      while true
        invariant ReadMessage(context, chunkSize, buffer) == ReadMessage(old(context), chunkSize, old(buffer))
        decreases |buffer|
      {
        ReadChunkConsumes(context, chunkSize, buffer);
        var step := TryParseMsg();
        match step
        case Starved => return OutOfData(context, buffer);
        case Malformed => return Broken;
        case Oversized(_, _) => return Broken;
        case Chunk(_, _, message) =>
          if message != None {
            return Message(context, buffer, message.value);
          }
      }
    }
  }
}
