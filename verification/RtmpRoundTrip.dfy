/** The reader restores what the writer wrote, and exactly when. */
module RtmpRoundTrip {
  import opened Common
  import opened ByteOrder
  import opened RtmpChunk
  import opened RtmpStream

  /** What fits the fields of a chunk; the first message of a chunk stream must also fit its timestamp in 24 bits. */
  predicate Representable(m: RawMessage) {
    && 2 <= m.csId <= 0xFFFF + 64
    && m.streamId < TWO_32 && m.timestamp < TWO_32
    && 1 <= |m.payload| < TWO_24
  }

  predicate FitsFirst(v: nat) {
    v <= EXTENDED || v % TWO_24 == EXTENDED
  }

  /**
   The reader's context knows everything the writer's context takes for granted,
   except the time: a timestamp once misread need not be the writer's any more.
   */
  ghost predicate InSync(w: Option<WriterContext>, r: ReaderContext) {
    match w
    case None => r == FRESH
    case Some(c) =>
      && r.payload == [] && r.timestamp < TWO_32 && c.timestamp < TWO_32
      && r.header.Some?
      && r.header.value.msgLen == c.header.msgLen
      && r.header.value.msgType == c.header.msgType
      && r.header.value.streamId == c.header.streamId
      && FitsFirst(c.header.timestamp.value)
      && r.header.value.timestamp.value == c.header.timestamp.value % TWO_24
  }

  ghost predicate StreamInSync(w: WriterContexts, r: ReaderContexts, csId: nat) {
    InSync(Lookup(w, csId), ReaderLookup(r, csId))
  }

  ghost predicate AllInSync(w: WriterContexts, r: ReaderContexts) {
    forall k :: StreamInSync(w, r, k)
  }

  /** The timestamp the reader arrives at, from the one it heard last on the chunk stream. */
  function TimestampRead(w: Option<WriterContext>, heard: nat, m: RawMessage, size: nat): nat {
    if w == None then m.timestamp
    else if w.value.header.streamId == m.streamId then WrappingAdd(heard, SaturatingSub(m.timestamp, w.value.timestamp))
    else if |m.payload| <= size then m.timestamp
    else WrappingAdd(heard, m.timestamp)
  }

  /**
   When the reader restores a message's timestamp: on the same message stream it
   must have heard the timestamp before rightly and this one must not go back,
   unless it goes back to what was heard; a message that changes the message
   stream must fit one chunk or come while the timestamp heard is 0.
   */
  predicate TimestampKept(w: Option<WriterContext>, heard: nat, m: RawMessage, size: nat) {
    w.Some? ==>
      if w.value.header.streamId == m.streamId then
        heard == if w.value.timestamp <= m.timestamp then w.value.timestamp else m.timestamp
      else |m.payload| <= size || heard == 0
  }

  lemma TimestampKeptIff(w: Option<WriterContext>, heard: nat, m: RawMessage, size: nat)
    requires m.timestamp < TWO_32 && heard < TWO_32 && (w.Some? ==> w.value.timestamp < TWO_32)
    ensures TimestampRead(w, heard, m, size) == m.timestamp <==> TimestampKept(w, heard, m, size)
  {
  }

  // ---- One chunk ----

  /** Reading a chunk the writer wrote, whatever follows it, gives the fields of its header, its extended timestamp and its payload. */
  lemma ChunkRoundTrip(contexts: ReaderContexts, size: nat, csId: nat, h: MessageHeader, ext: Option<nat>,
                       part: seq<byte>, tail: seq<byte>, complete: VirtualHeader)
    requires 2 <= csId <= 0xFFFF + 64 && (h.FullHeader? ==> h.streamId < TWO_32)
    requires Complete(ReaderLookup(contexts, csId).header, OnWire(h)) == Some(complete)
    requires complete.timestamp.HasExtended() <==> ext.Some?
    requires ext.Some? ==> ext.value < TWO_32
    requires |part| == Min(size, SaturatingSub(complete.msgLen, |ReaderLookup(contexts, csId).payload|))
    ensures ReadChunk(contexts, size, ChunkBytes(csId, h, ext, part) + tail)
         == AddChunk(contexts, csId, complete, if ext.Some? then ext.value else 0, part, tail)
  {
    var base := BaseHeader(TypeOf(h), csId);
    var d2 := ExtendedBytes(ext) + (part + tail);
    BaseRoundTrip(base, WriteHeader(h) + d2);
    HeaderRoundTrip(h, d2);
    Reassociate(WriteBase(base).value, WriteHeader(h), ExtendedBytes(ext), part, tail);
    PayloadRoundTrip(contexts, size, csId, OnWire(h), ext, part, tail, complete);
  }

  lemma PayloadRoundTrip(contexts: ReaderContexts, size: nat, csId: nat, h: MessageHeader, ext: Option<nat>,
                         part: seq<byte>, tail: seq<byte>, complete: VirtualHeader)
    requires Complete(ReaderLookup(contexts, csId).header, h) == Some(complete)
    requires complete.timestamp.HasExtended() <==> ext.Some?
    requires ext.Some? ==> ext.value < TWO_32
    requires |part| == Min(size, SaturatingSub(complete.msgLen, |ReaderLookup(contexts, csId).payload|))
    ensures ReadPayload(contexts, size, csId, h, ExtendedBytes(ext) + (part + tail))
         == AddChunk(contexts, csId, complete, if ext.Some? then ext.value else 0, part, tail)
  {
    var d3 := part + tail;
    if ext.Some? {
      ExtendedRoundTrip(ext.value, d3);
    } else {
      assert ExtendedBytes(ext) + d3 == d3;
    }
    assert d3[..|part|] == part && d3[|part|..] == tail;
  }

  lemma Reassociate(a: seq<byte>, b: seq<byte>, c: seq<byte>, d: seq<byte>, e: seq<byte>)
    ensures (a + (b + (c + d))) + e == a + (b + (c + (d + e)))
  {
  }

  // ---- One message ----

  function ExtendedValue(ext: Option<nat>): nat {
    if ext.Some? then ext.value else 0
  }

  /** Reading a message starts with adding its first chunk. */
  lemma ReadFirstChunk(contexts: ReaderContexts, size: nat, csId: nat, header: MessageHeader, ext: Option<nat>,
                       payload: seq<byte>, tail: seq<byte>, h: VirtualHeader)
    requires 2 <= csId <= 0xFFFF + 64 && 1 <= size && payload != []
    requires header.FullHeader? ==> header.streamId < TWO_32
    requires Complete(ReaderLookup(contexts, csId).header, OnWire(header)) == Some(h)
    requires (h.timestamp.HasExtended() <==> ext.Some?) && (ext.Some? ==> ext.value < TWO_32)
    requires |ReaderLookup(contexts, csId).payload| + |payload| == h.msgLen
    ensures var n := Min(|payload|, size);
            var later := Chunks(csId, EmptyHeader, ext, payload[n..], size) + tail;
            ReadMessage(contexts, size, Chunks(csId, header, ext, payload, size) + tail)
            == AfterChunk(AddChunk(contexts, csId, h, ExtendedValue(ext), payload[..n], later), size)
  {
    var n := Min(|payload|, size);
    var later := Chunks(csId, EmptyHeader, ext, payload[n..], size) + tail;
    ChunksAssociate(csId, header, ext, payload, size, tail);
    ChunkRoundTrip(contexts, size, csId, header, ext, payload[..n], later, h);
    UnfoldRead(contexts, size, ChunkBytes(csId, header, ext, payload[..n]) + later);
  }

  /** How reading a message goes on after one chunk. */
  function AfterChunk(step: ChunkStep, size: nat): ReadOutcome {
    if !step.Chunk? then Broken
    else if step.message == None then ReadMessage(step.contexts, size, step.rest)
    else Message(step.contexts, step.rest, step.message.value)
  }

  lemma UnfoldRead(contexts: ReaderContexts, size: nat, data: seq<byte>)
    ensures !ReadChunk(contexts, size, data).Starved?
            ==> ReadMessage(contexts, size, data) == AfterChunk(ReadChunk(contexts, size, data), size)
  {
  }

  /** The chunks after the first add up to the rest of the message, each taking its header for a delta. */
  lemma {:induction false} RestOfMessage(contexts: ReaderContexts, size: nat, csId: nat, h: VirtualHeader, ext: Option<nat>,
                                         rest: seq<byte>, tail: seq<byte>)
    requires 2 <= csId <= 0xFFFF + 64 && 1 <= size && rest != []
    requires h.timestamp.Delta? && (h.timestamp.HasExtended() <==> ext.Some?) && (ext.Some? ==> ext.value < TWO_32)
    requires Complete(ReaderLookup(contexts, csId).header, EmptyHeader) == Some(h)
    requires |ReaderLookup(contexts, csId).payload| + |rest| == h.msgLen
    ensures ReadMessage(contexts, size, Chunks(csId, EmptyHeader, ext, rest, size) + tail)
            == Completed(contexts, csId, h, ext, rest, tail)
    decreases |rest|
  {
    var n := Min(|rest|, size);
    var later := Chunks(csId, EmptyHeader, ext, rest[n..], size) + tail;
    ReadFirstChunk(contexts, size, csId, EmptyHeader, ext, rest, tail, h);
    if n < |rest| {
      var contexts' := AddPart(contexts, csId, h, ext, rest[..n], later);
      RestOfMessage(contexts', size, csId, h, ext, rest[n..], tail);
      CompletedInParts(contexts, contexts', csId, h, h, ext, rest, n, tail);
    } else {
      assert rest[..n] == rest && later == tail;
      AddLast(contexts, csId, h, ext, rest, tail);
    }
  }

  /** The outcome of reading a message whose last chunk has header h. */
  function Completed(contexts: ReaderContexts, csId: nat, h: VirtualHeader, ext: Option<nat>, rest: seq<byte>,
                     tail: seq<byte>): ReadOutcome {
    var ctx := ReaderLookup(contexts, csId);
    var timestamp := ResolveTimestamp(ctx.timestamp, h.timestamp, ExtendedValue(ext));
    Message(contexts[csId := ReaderContext(Some(h), timestamp, [])], tail,
            RawMessage(h.msgType, h.streamId, csId, timestamp, ctx.payload + rest))
  }

  lemma AddPart(contexts: ReaderContexts, csId: nat, h: VirtualHeader, ext: Option<nat>, part: seq<byte>, later: seq<byte>)
    returns (contexts': ReaderContexts)
    requires |ReaderLookup(contexts, csId).payload| + |part| < h.msgLen
    ensures AddChunk(contexts, csId, h, ExtendedValue(ext), part, later) == Chunk(contexts', later, None)
    ensures contexts' == contexts[csId := ReaderLookup(contexts, csId).(header := Some(h),
                                          payload := ReaderLookup(contexts, csId).payload + part)]
  {
    contexts' := AddChunk(contexts, csId, h, ExtendedValue(ext), part, later).contexts;
  }

  lemma AddLast(contexts: ReaderContexts, csId: nat, h: VirtualHeader, ext: Option<nat>, part: seq<byte>, later: seq<byte>)
    requires |ReaderLookup(contexts, csId).payload| + |part| == h.msgLen
    ensures AfterChunk(AddChunk(contexts, csId, h, ExtendedValue(ext), part, later), 0)
         == Completed(contexts, csId, h, ext, part, later)
    ensures AddChunk(contexts, csId, h, ExtendedValue(ext), part, later).Chunk?
    ensures AddChunk(contexts, csId, h, ExtendedValue(ext), part, later).message.Some?
  {
  }

  lemma CompletedInParts(contexts: ReaderContexts, contexts': ReaderContexts, csId: nat, first: VirtualHeader, h: VirtualHeader,
                         ext: Option<nat>, payload: seq<byte>, n: nat, tail: seq<byte>)
    requires n <= |payload|
    requires contexts' == contexts[csId := ReaderLookup(contexts, csId).(header := Some(first),
                                           payload := ReaderLookup(contexts, csId).payload + payload[..n])]
    ensures Completed(contexts', csId, h, ext, payload[n..], tail) == Completed(contexts, csId, h, ext, payload, tail)
  {
    var p := ReaderLookup(contexts, csId).payload;
    assert p + payload[..n] + payload[n..] == p + payload;
  }

  lemma ChunksAssociate(csId: nat, h: MessageHeader, ext: Option<nat>, payload: seq<byte>, size: nat, tail: seq<byte>)
    requires 2 <= csId && 1 <= size && payload != []
    ensures var n := Min(|payload|, size);
            Chunks(csId, h, ext, payload, size) + tail
            == ChunkBytes(csId, h, ext, payload[..n]) + (Chunks(csId, EmptyHeader, ext, payload[n..], size) + tail)
  {
  }

  function AsDelta(h: VirtualHeader): VirtualHeader {
    h.(timestamp := Delta(h.timestamp.value))
  }

  /** A whole message: its first header completed, its payload gathered, its timestamp taken from its last chunk. */
  lemma WholeMessage(contexts: ReaderContexts, size: nat, csId: nat, header: MessageHeader, ext: Option<nat>,
                     payload: seq<byte>, tail: seq<byte>, h: VirtualHeader)
    requires 2 <= csId <= 0xFFFF + 64 && 1 <= size && payload != []
    requires header.FullHeader? ==> header.streamId < TWO_32
    requires Complete(ReaderLookup(contexts, csId).header, OnWire(header)) == Some(h)
    requires (h.timestamp.HasExtended() <==> ext.Some?) && (ext.Some? ==> ext.value < TWO_32)
    requires ReaderLookup(contexts, csId).payload == [] && |payload| == h.msgLen
    ensures ReadMessage(contexts, size, Chunks(csId, header, ext, payload, size) + tail)
            == Completed(contexts, csId, if |payload| <= size then h else AsDelta(h), ext, payload, tail)
  {
    var n := Min(|payload|, size);
    var later := Chunks(csId, EmptyHeader, ext, payload[n..], size) + tail;
    ReadFirstChunk(contexts, size, csId, header, ext, payload, tail, h);
    if n < |payload| {
      var contexts' := AddPart(contexts, csId, h, ext, payload[..n], later);
      RestOfMessage(contexts', size, csId, AsDelta(h), ext, payload[n..], tail);
      CompletedInParts(contexts, contexts', csId, h, AsDelta(h), ext, payload, n, tail);
    } else {
      assert payload[..n] == payload && later == tail;
      AddLast(contexts, csId, h, ext, payload, tail);
    }
  }

  /** The header the writer picks is completed by the reader to the message's own fields. */
  lemma HeaderUnderstood(w: Option<WriterContext>, r: ReaderContext, m: RawMessage)
    requires InSync(w, r) && Representable(m) && (w == None ==> FitsFirst(m.timestamp))
    ensures var h := ResolveHeader(w, m);
            var ext := ResolveExtended(w, h, m.timestamp);
            var prev := if w == None then None else Some(w.value.header);
            var sent, got := Complete(prev, h).value, Complete(r.header, OnWire(h));
            && got.Some? && (h.FullHeader? ==> h.streamId < TWO_32)
            && got.value.msgLen == sent.msgLen == |m.payload|
            && got.value.msgType == sent.msgType == m.msgType
            && got.value.streamId == sent.streamId == m.streamId
            && FitsFirst(sent.timestamp.value) && got.value.timestamp.value == sent.timestamp.value % TWO_24
            && (got.value.timestamp.HasExtended() <==> ext.Some?)
            && (ext.Some? ==> ext.value < TWO_32)
            && got.value.timestamp.Timestamp? == h.FullHeader?
            && (if ext.Some? then ext.value else got.value.timestamp.value)
               == (if h.FullHeader? then m.timestamp else SaturatingSub(m.timestamp, w.value.timestamp))
  {
  }

  /** The last header of a message, as the reader ends up with it. */
  function LastHeader(w: Option<WriterContext>, r: ReaderContext, m: RawMessage, size: nat): Option<VirtualHeader> {
    var got := Complete(r.header, OnWire(ResolveHeader(w, m)));
    if got == None then None else Some(if |m.payload| <= size then got.value else AsDelta(got.value))
  }

  lemma TimestampUnderstood(w: Option<WriterContext>, r: ReaderContext, m: RawMessage, size: nat)
    requires InSync(w, r) && Representable(m) && (w == None ==> FitsFirst(m.timestamp))
    ensures LastHeader(w, r, m, size).Some?
    ensures ResolveTimestamp(r.timestamp, LastHeader(w, r, m, size).value.timestamp,
                             ExtendedValue(ResolveExtended(w, ResolveHeader(w, m), m.timestamp)))
         == TimestampRead(w, r.timestamp, m, size)
  {
    HeaderUnderstood(w, r, m);
  }

  /** Whatever timestamp is heard, the contexts agree on the chunk stream again. */
  lemma ContextsAgree(w: Option<WriterContext>, r: ReaderContext, m: RawMessage, size: nat, heard: nat)
    requires InSync(w, r) && Representable(m) && (w == None ==> FitsFirst(m.timestamp)) && heard < TWO_32
    ensures LastHeader(w, r, m, size).Some?
    ensures InSync(Some(NextContext(w, m)), ReaderContext(LastHeader(w, r, m, size), heard, []))
  {
    HeaderUnderstood(w, r, m);
  }

  function NextContext(w: Option<WriterContext>, m: RawMessage): WriterContext {
    var prev := if w == None then None else Some(w.value.header);
    WriterContext(Complete(prev, ResolveHeader(w, m)).value, m.timestamp)
  }

  lemma ReadWritten(w: Option<WriterContext>, r: ReaderContexts, size: nat, m: RawMessage, tail: seq<byte>)
    requires InSync(w, ReaderLookup(r, m.csId)) && Representable(m) && (w == None ==> FitsFirst(m.timestamp)) && 1 <= size
    ensures var last := LastHeader(w, ReaderLookup(r, m.csId), m, size);
            var h := ResolveHeader(w, m);
            var t := TimestampRead(w, ReaderLookup(r, m.csId).timestamp, m, size);
            && last.Some?
            && ReadMessage(r, size, Chunks(m.csId, h, ResolveExtended(w, h, m.timestamp), m.payload, size) + tail)
               == Message(r[m.csId := ReaderContext(last, t, [])], tail, m.(timestamp := t))
  {
    var ctx := ReaderLookup(r, m.csId);
    var h := ResolveHeader(w, m);
    var ext := ResolveExtended(w, h, m.timestamp);
    HeaderUnderstood(w, ctx, m);
    TimestampUnderstood(w, ctx, m, size);
    WholeMessage(r, size, m.csId, h, ext, m.payload, tail, Complete(ctx.header, OnWire(h)).value);
    assert ctx.payload + m.payload == m.payload;
  }

  /**
   A message the writer wrote is read back whole, with the timestamp of TimestampRead,
   and the contexts stay in sync; the timestamp is right if and only if TimestampKept.
   */
  lemma MessageRoundTrip(w: WriterContexts, r: ReaderContexts, size: nat, m: RawMessage, tail: seq<byte>)
    requires 1 <= size && AllInSync(w, r) && Representable(m)
    requires Lookup(w, m.csId) == None ==> FitsFirst(m.timestamp)
    ensures WriteMessage(w, size, m).result.Ok?
    ensures var got := ReadMessage(r, size, WriteMessage(w, size, m).result.value + tail);
            var heard := ReaderLookup(r, m.csId).timestamp;
            && got.Message? && got.rest == tail
            && got.message == m.(timestamp := TimestampRead(Lookup(w, m.csId), heard, m, size))
            && (got.message == m <==> TimestampKept(Lookup(w, m.csId), heard, m, size))
            && AllInSync(WriteMessage(w, size, m).contexts, got.contexts)
            && ReaderLookup(got.contexts, m.csId).timestamp == got.message.timestamp
            && forall k :: k != m.csId ==> ReaderLookup(got.contexts, k) == ReaderLookup(r, k)
  {
    var ctx, rctx := Lookup(w, m.csId), ReaderLookup(r, m.csId);
    var t := TimestampRead(ctx, rctx.timestamp, m, size);
    assert StreamInSync(w, r, m.csId);
    ReadWritten(ctx, r, size, m, tail);
    ContextsAgree(ctx, rctx, m, size, t);
    TimestampKeptIff(ctx, rctx.timestamp, m, size);
    StaysInSync(w, r, m.csId, NextContext(ctx, m), ReaderContext(LastHeader(ctx, rctx, m, size), t, []));
  }

  lemma StaysInSync(w: WriterContexts, r: ReaderContexts, csId: nat, c: WriterContext, d: ReaderContext)
    requires AllInSync(w, r) && InSync(Some(c), d)
    ensures AllInSync(w[csId := c], r[csId := d])
  {
    var w', r' := w[csId := c], r[csId := d];
    forall k ensures StreamInSync(w', r', k) {
      assert StreamInSync(w, r, k);
    }
  }

  /**
   The first message of a chunk stream, sent in one chunk, is read back if and only
   if its timestamp fits: the writer does not clamp it to 24 bits there, so that the
   reader may miss the extended timestamp behind the header.
   */
  lemma FirstMessageReadIff(w: WriterContexts, r: ReaderContexts, size: nat, m: RawMessage, tail: seq<byte>)
    requires AllInSync(w, r) && m.csId !in w && Representable(m) && |m.payload| <= size
    ensures WriteMessage(w, size, m).result.Ok?
    ensures var got := ReadMessage(r, size, WriteMessage(w, size, m).result.value + tail);
            got.Message? && (got.message == m <==> FitsFirst(m.timestamp))
  {
    assert StreamInSync(w, r, m.csId);
    if FitsFirst(m.timestamp) {
      MessageRoundTrip(w, r, size, m, tail);
    } else {
      var data := Be32(m.timestamp) + m.payload + tail;
      ExtendedMissed(w, r, m, size, tail);
      var step := AddChunk(r, m.csId, Unmarked(m), 0, data[..|m.payload|], data[|m.payload|..]);
      assert step.Chunk? && step.message.Some? && step.message.value.timestamp == m.timestamp % TWO_24;
    }
  }

  /** The header of a first message as it is read without the mark of an extended timestamp. */
  function Unmarked(m: RawMessage): VirtualHeader {
    VirtualHeader(|m.payload|, m.msgType, m.streamId, Timestamp(m.timestamp % TWO_24))
  }

  function FirstHeader(m: RawMessage): MessageHeader {
    FullHeader(m.timestamp, |m.payload|, m.msgType, m.streamId)
  }

  /** Without the mark in the header, the four bytes of the extended timestamp are read as payload. */
  lemma ExtendedMissed(w: WriterContexts, r: ReaderContexts, m: RawMessage, size: nat, tail: seq<byte>)
    requires m.csId !in w && ReaderLookup(r, m.csId) == FRESH
    requires Representable(m) && |m.payload| <= size && !FitsFirst(m.timestamp)
    ensures var data := Be32(m.timestamp) + m.payload + tail;
            && WriteMessage(w, size, m).result.Ok?
            && ReadMessage(r, size, WriteMessage(w, size, m).result.value + tail)
               == AfterChunk(AddChunk(r, m.csId, Unmarked(m), 0, data[..|m.payload|], data[|m.payload|..]), size)
  {
    var data := Be32(m.timestamp) + m.payload + tail;
    ReadUnmarked(r, m, size, data);
    FirstBytes(w, m, size, tail);
    UnfoldRead(r, size, WriteBase(BaseHeader(Full, m.csId)).value + (WriteHeader(FirstHeader(m)) + data));
  }

  lemma FirstBytes(w: WriterContexts, m: RawMessage, size: nat, tail: seq<byte>)
    requires m.csId !in w && Representable(m) && |m.payload| <= size && !FitsFirst(m.timestamp)
    ensures && WriteMessage(w, size, m).result.Ok? && WriteBase(BaseHeader(Full, m.csId)).Ok?
            && WriteMessage(w, size, m).result.value + tail
               == WriteBase(BaseHeader(Full, m.csId)).value
                  + (WriteHeader(FirstHeader(m)) + (Be32(m.timestamp) + m.payload + tail))
  {
    OneChunk(m.csId, FirstHeader(m), Some(m.timestamp), m.payload, size);
    Regroup(WriteBase(BaseHeader(Full, m.csId)).value, WriteHeader(FirstHeader(m)), Be32(m.timestamp), m.payload, tail);
  }

  lemma Regroup(a: seq<byte>, b: seq<byte>, c: seq<byte>, d: seq<byte>, e: seq<byte>)
    ensures (a + (b + (c + d))) + e == a + (b + (c + d + e))
  {
  }

  lemma ReadUnmarked(r: ReaderContexts, m: RawMessage, size: nat, data: seq<byte>)
    requires ReaderLookup(r, m.csId) == FRESH
    requires Representable(m) && |m.payload| <= size && |m.payload| <= |data| && !FitsFirst(m.timestamp)
    ensures && WriteBase(BaseHeader(Full, m.csId)).Ok?
            && ReadChunk(r, size, WriteBase(BaseHeader(Full, m.csId)).value + (WriteHeader(FirstHeader(m)) + data))
               == AddChunk(r, m.csId, Unmarked(m), 0, data[..|m.payload|], data[|m.payload|..])
  {
    BaseRoundTrip(BaseHeader(Full, m.csId), WriteHeader(FirstHeader(m)) + data);
    HeaderRoundTrip(FirstHeader(m), data);
    UnmarkedPayload(r, m, size, data);
  }

  lemma UnmarkedPayload(r: ReaderContexts, m: RawMessage, size: nat, data: seq<byte>)
    requires ReaderLookup(r, m.csId) == FRESH
    requires Representable(m) && |m.payload| <= size && |m.payload| <= |data| && !FitsFirst(m.timestamp)
    ensures ReadPayload(r, size, m.csId, OnWire(FirstHeader(m)), data)
         == AddChunk(r, m.csId, Unmarked(m), 0, data[..|m.payload|], data[|m.payload|..])
  {
  }

  lemma OneChunk(csId: nat, h: MessageHeader, ext: Option<nat>, payload: seq<byte>, size: nat)
    requires 2 <= csId && 1 <= |payload| <= size
    ensures Chunks(csId, h, ext, payload, size) == ChunkBytes(csId, h, ext, payload)
  {
    assert payload[..|payload|] == payload && payload[|payload|..] == [];
  }
}
