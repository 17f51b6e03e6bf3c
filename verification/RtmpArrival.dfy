/** Bytes that arrive in pieces, or not to the end: what a receiver makes of them. */
module RtmpArrival {
  import opened Common
  import opened ByteOrder
  import opened RtmpChunk
  import opened RtmpStream
  import opened RtmpRoundTrip
  import opened RtmpConversation

  /** A chunk that is complete stays the same chunk when more data arrives behind it. */
  lemma ReadChunkStable(contexts: ReaderContexts, size: nat, data: seq<byte>, more: seq<byte>)
    ensures ReadChunk(contexts, size, data).Malformed? ==> ReadChunk(contexts, size, data + more).Malformed?
    ensures var step := ReadChunk(contexts, size, data);
            step.Chunk? || step.Oversized? ==> ReadChunk(contexts, size, data + more) == step.(rest := step.rest + more)
  {
    var base := ReadBase(data);
    if base != NotEnoughData {
      ReadBaseStable(data, more);
      var header := ReadHeader(base.value.fmt, base.rest);
      if header != NotEnoughData {
        ReadHeaderStable(base.value.fmt, base.rest, more);
        ReadPayloadStable(contexts, size, base.value.csId, header.value, header.rest, more);
      }
    }
  }

  lemma ReadBaseStable(data: seq<byte>, more: seq<byte>)
    requires ReadBase(data) != NotEnoughData
    ensures ReadBase(data + more) == Parsed(ReadBase(data).value, ReadBase(data).rest + more)
  {
  }

  lemma ReadHeaderStable(fmt: ChunkType, data: seq<byte>, more: seq<byte>)
    requires ReadHeader(fmt, data) != NotEnoughData
    ensures ReadHeader(fmt, data + more) == Parsed(ReadHeader(fmt, data).value, ReadHeader(fmt, data).rest + more)
  {
  }

  lemma ReadPayloadStable(contexts: ReaderContexts, size: nat, csId: nat, h: MessageHeader, data: seq<byte>, more: seq<byte>)
    ensures var step := ReadPayload(contexts, size, csId, h, data);
            && (step.Malformed? ==> ReadPayload(contexts, size, csId, h, data + more).Malformed?)
            && (step.Chunk? || step.Oversized? ==>
                  ReadPayload(contexts, size, csId, h, data + more) == step.(rest := step.rest + more))
  {
    var ctx := ReaderLookup(contexts, csId);
    var complete := Complete(ctx.header, h);
    if complete != None {
      var extended := ExtendedFor(complete.value, data);
      if extended != NotEnoughData {
        ExtendedForStable(complete.value, data, more);
        var rest, n := extended.rest, Min(size, SaturatingSub(complete.value.msgLen, |ctx.payload|));
        if n <= |rest| {
          assert (rest + more)[..n] == rest[..n] && (rest + more)[n..] == rest[n..] + more;
          AddChunkPasses(contexts, csId, complete.value, extended.value, rest[..n], rest[n..], more);
        }
      }
    }
  }

  lemma ExtendedForStable(h: VirtualHeader, data: seq<byte>, more: seq<byte>)
    requires ExtendedFor(h, data) != NotEnoughData
    ensures ExtendedFor(h, data + more) == Parsed(ExtendedFor(h, data).value, ExtendedFor(h, data).rest + more)
  {
    if h.timestamp.HasExtended() {
      assert (data + more)[4..] == data[4..] + more;
    }
  }

  /** What follows a chunk is handed on. */
  lemma AddChunkPasses(contexts: ReaderContexts, csId: nat, h: VirtualHeader, ext: nat, part: seq<byte>, rest: seq<byte>, more: seq<byte>)
    ensures var step := AddChunk(contexts, csId, h, ext, part, rest);
            && (step.Chunk? || step.Oversized?)
            && AddChunk(contexts, csId, h, ext, part, rest + more) == step.(rest := step.rest + more)
  {
  }

  lemma {:induction false} ReadMessageStable(contexts: ReaderContexts, size: nat, data: seq<byte>, more: seq<byte>)
    ensures match ReadMessage(contexts, size, data)
            case OutOfData(contexts', rest) => ReadMessage(contexts, size, data + more) == ReadMessage(contexts', size, rest + more)
            case Broken => ReadMessage(contexts, size, data + more) == Broken
            case Message(contexts', rest, m) => ReadMessage(contexts, size, data + more) == Message(contexts', rest + more, m)
    decreases |data|
  {
    ReadChunkStable(contexts, size, data, more);
    ReadChunkConsumes(contexts, size, data);
    var step := ReadChunk(contexts, size, data);
    if step.Chunk? && step.message == None {
      ReadMessageStable(step.contexts, size, step.rest, more);
    }
  }

  /** Data that arrives in two parts gives the messages of the whole. */
  lemma {:induction false} ReceiveMore(contexts: ReaderContexts, size: nat, data: seq<byte>, more: seq<byte>)
    ensures var early := ReceiveAll(contexts, size, data);
            SameOutcome(ReceiveAll(contexts, size, data + more), Prepend(early.0, Receive(early.1, more)))
    decreases |data|
  {
    ReadMessageStable(contexts, size, data, more);
    match ReadMessage(contexts, size, data) {
      case OutOfData(contexts', rest) =>
        ResumeRead(contexts, contexts', size, data + more, rest + more);
        PrependNothing(ReceiveAll(contexts', size, rest + more));
      case Broken =>
      case Message(contexts', rest, m) =>
        ReceiveMore(contexts', SizeAfter(size, m), rest, more);
        var early := ReceiveAll(contexts', SizeAfter(size, m), rest);
        PrependTwice([m], early.0, Receive(early.1, more));
    }
  }

  lemma PrependNothing(received: (seq<RawMessage>, Receiver))
    ensures Prepend([], received) == received
  {
    assert [] + received.0 == received.0;
  }

  lemma PrependTwice(a: seq<RawMessage>, b: seq<RawMessage>, received: (seq<RawMessage>, Receiver))
    ensures Prepend(a, Prepend(b, received)) == Prepend(a + b, received)
  {
    assert a + (b + received.0) == a + b + received.0;
  }

  /** The same messages, and receivers that are equal or both broken. */
  predicate SameOutcome(a: (seq<RawMessage>, Receiver), b: (seq<RawMessage>, Receiver)) {
    a.0 == b.0 && Settled(a.1, b.1)
  }

  /** Equal, or both broken. */
  predicate Settled(a: Receiver, b: Receiver) {
    a == b || (a.broken && b.broken)
  }

  lemma ResumeRead(contexts: ReaderContexts, contexts': ReaderContexts, size: nat, data: seq<byte>, data': seq<byte>)
    requires ReadMessage(contexts, size, data) == ReadMessage(contexts', size, data')
    ensures SameOutcome(ReceiveAll(contexts, size, data), ReceiveAll(contexts', size, data'))
  {
  }

  /** How the bytes are cut into arrivals changes neither the messages nor the receiver they leave behind. */
  lemma {:induction false} FragmentationInvariant(r: Receiver, pieces: seq<seq<byte>>)
    requires pieces != []
    ensures SameOutcome(ReceivePieces(r, pieces), Receive(r, Concat(pieces)))
    decreases |pieces|
  {
    var first, later := Receive(r, pieces[0]), pieces[1..];
    UnfoldPieces(r, pieces);
    if later == [] {
      assert Concat(pieces) == pieces[0];
    } else {
      FragmentationInvariant(first.1, later);
      ReceiveTwice(r, pieces[0], Concat(later));
    }
  }

  lemma UnfoldPieces(r: Receiver, pieces: seq<seq<byte>>)
    requires pieces != []
    ensures ReceivePieces(r, pieces) == Prepend(Receive(r, pieces[0]).0, ReceivePieces(Receive(r, pieces[0]).1, pieces[1..]))
    ensures Concat(pieces) == pieces[0] + Concat(pieces[1..])
    ensures pieces[1..] == [] ==> ReceivePieces(r, pieces) == Receive(r, pieces[0])
  {
    assert Receive(r, pieces[0]).0 + [] == Receive(r, pieces[0]).0;
  }

  lemma ReceiveTwice(r: Receiver, piece: seq<byte>, more: seq<byte>)
    ensures SameOutcome(Receive(r, piece + more), Prepend(Receive(r, piece).0, Receive(Receive(r, piece).1, more)))
  {
    if !r.broken {
      assert r.buffer + piece + more == r.buffer + (piece + more);
      ReceiveMore(r.contexts, r.size, r.buffer + piece, more);
    } else {
      PrependNothing(Receive(r, more));
    }
  }
  // ---- Messages that do not get through ----

  /** A part of a message's bytes is no message yet. */
  lemma PartIsNoMessage(s: Sender, contexts: ReaderContexts, heard: Times, a: Action, sent: seq<byte>)
    requires AllInSync(s.contexts, contexts) && AreTimesOf(heard, contexts) && Writable(s, a)
    requires sent < MessageBytes(s, a.Message())
    ensures ReceiveAll(contexts, s.size, sent).0 == []
  {
    var bytes := MessageBytes(s, a.Message());
    var missing := bytes[|sent|..];
    assert sent + missing == bytes == bytes + [];
    MessageRoundTrip(s.contexts, contexts, s.size, a.Message(), []);
    ReadMessageStable(contexts, s.size, sent, missing);
  }

  /**
   A connection cut short: of a last message only a part may have been sent. The
   receiver hears everything before it, and hears it too if and only if all its
   bytes got through.
   */
  lemma CutShort(s: Sender, contexts: ReaderContexts, heard: Times, script: seq<Action>, a: Action, sent: seq<byte>)
    requires AllInSync(s.contexts, contexts) && AreTimesOf(heard, contexts) && ValidScript(s, script + [a])
    ensures ValidScript(s, script)
    ensures var bytes := MessageBytes(AfterScript(s, script), a.Message());
            && (sent < bytes ==> ReceiveAll(contexts, s.size, Bytes(s, script) + sent).0 == HeardAll(s, heard, script))
            && (sent == bytes ==> ReceiveAll(contexts, s.size, Bytes(s, script) + sent).0 == HeardAll(s, heard, script + [a]))
  {
    ScriptAppend(s, script, a);
    var bytes := MessageBytes(AfterScript(s, script), a.Message());
    if sent < bytes {
      PartIsNotHeard(s, contexts, heard, script, a, sent);
    } else if sent == bytes {
      EveryScriptIsHeard(s, contexts, heard, script + [a]);
    }
  }

  lemma PartIsNotHeard(s: Sender, contexts: ReaderContexts, heard: Times, script: seq<Action>, a: Action, sent: seq<byte>)
    requires AllInSync(s.contexts, contexts) && AreTimesOf(heard, contexts) && ValidScript(s, script)
    requires Writable(AfterScript(s, script), a) && sent < MessageBytes(AfterScript(s, script), a.Message())
    ensures ReceiveAll(contexts, s.size, Bytes(s, script) + sent).0 == HeardAll(s, heard, script)
  {
    EveryScriptIsHeard(s, contexts, heard, script);
    var early := ReceiveAll(contexts, s.size, Bytes(s, script));
    ReceiveMore(contexts, s.size, Bytes(s, script), sent);
    PartIsNoMessage(AfterScript(s, script), early.1.contexts, TimesNow(early.1.contexts), a, sent);
    NothingBefore(sent);
    assert early.0 + [] == early.0;
  }

  lemma NothingBefore(sent: seq<byte>)
    ensures [] + sent == sent
  {
  }

  ghost function TimesNow(contexts: ReaderContexts): (heard: Times)
    ensures AreTimesOf(heard, contexts)
  {
    map k | k in contexts :: contexts[k].timestamp
  }
}
