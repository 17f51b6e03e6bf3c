/** What an RTMP client does over a connection, as a history of events, and what its peer makes of it. */
module RtmpClientHistory {
  import opened Common
  import opened ByteOrder
  import opened RtmpStream
  import opened RtmpRoundTrip
  import opened RtmpConversation
  import opened RtmpArrival

  datatype AudioChannels = Mono | Stereo

  datatype Incoming =
    | PeerChunkSize(chunkSize: nat)
    | PeerWindowAckSize(windowSize: nat)
    | PeerAcknowledgement(bytesReceived: nat)
    | PeerBandwidth(bandwidth: nat)
    | PingRequest(timestamp: nat)
    | CommandResult(transactionId: nat, response: Response)
    | OnStatus(streamId: nat)
    | OtherMessage

  /** A command result: an error, a success that cannot be decoded, or a success (with the id of a created stream). */
  datatype Response = ErrorResponse | UndecodableResponse | SuccessResponse(streamId: nat)

  datatype Outgoing =
    | Connect
    | CreateStream
    | Publish(streamId: nat)
    | DeleteStream(streamId: nat)
    | SetChunkSize(chunkSize: nat)
    | WindowAckSize(windowSize: nat)
    | Acknowledgement(bytesReceived: nat)
    | PingResponse(timestamp: nat)
    | Video(streamId: nat, isConfig: bool, timestamp: nat, data: seq<byte>)
    | Audio(streamId: nat, isConfig: bool, timestamp: nat, trackId: nat, channels: AudioChannels, data: seq<byte>)
    | MetaData(streamId: nat, data: seq<byte>)

  /** Message types, chunk streams and timestamps of outgoing messages; encode gives the AMF and FLV payloads. */
  function IntoRaw(m: Outgoing, encode: Outgoing -> seq<byte>): RawMessage {
    match m
    case SetChunkSize(n) => RawMessage(SET_CHUNK_SIZE_TYPE, 0, PROTOCOL_CHUNK_STREAM_ID, 0, Be32(n))
    case Acknowledgement(n) => RawMessage(3, 0, PROTOCOL_CHUNK_STREAM_ID, 0, Be32(n))
    case PingResponse(t) => RawMessage(4, 0, PROTOCOL_CHUNK_STREAM_ID, 0, Be16(7) + Be32(t))
    case WindowAckSize(n) => RawMessage(5, 0, PROTOCOL_CHUNK_STREAM_ID, 0, Be32(n))
    case Connect => RawMessage(20, 0, 3, 0, encode(m))
    case CreateStream => RawMessage(20, 0, 3, 0, encode(m))
    case Publish(streamId) => RawMessage(20, streamId, 3, 0, encode(m))
    case DeleteStream(_) => RawMessage(20, 0, 3, 0, encode(m))
    case MetaData(streamId, _) => RawMessage(18, streamId, 3, 0, encode(m))
    case Video(streamId, _, timestamp, _) => RawMessage(9, streamId, 6, timestamp, encode(m))
    case Audio(streamId, _, timestamp, _, _, _) => RawMessage(8, streamId, 4, timestamp, encode(m))
  }

  datatype Event =
    | Received(incoming: Incoming)
    | Wrote(outgoing: Outgoing)
    | WriteFailed(outgoing: Outgoing)
    | WriterSwitched(size: nat)

  /** A history, latest event last. */
  datatype History = Beginning | Then(before: History, event: Event)

  predicate IsMedia(m: Outgoing) {
    m.Video? || m.Audio? || m.MetaData?
  }

  /** A media message was written, or writing it failed. */
  predicate IsAttempt(e: Event) {
    (e.Wrote? || e.WriteFailed?) && IsMedia(e.outgoing)
  }

  /** The media messages of a history, in order, each with its outcome. */
  function Attempts(h: History): seq<Event> {
    match h
    case Beginning => []
    case Then(before, e) => Attempts(before) + if IsAttempt(e) then [e] else []
  }

  /** h' is h, or h with later events, none of which is about media. */
  predicate Extends(h': History, h: History) {
    h' == h || (h'.Then? && !IsAttempt(h'.event) && Extends(h'.before, h))
  }

  lemma {:induction false} ExtendsKeepsAttempts(h': History, h: History)
    requires Extends(h', h)
    ensures Attempts(h') == Attempts(h)
    decreases h'
  {
    if h' != h {
      ExtendsKeepsAttempts(h'.before, h);
    }
  }

  lemma {:induction false} ExtendsTransitive(c: History, b: History, a: History)
    requires Extends(c, b) && Extends(b, a)
    ensures Extends(c, a)
    decreases c
  {
    if c != b {
      ExtendsTransitive(c.before, b, a);
    }
  }

  lemma {:induction false} HandledExtends(h': History, h: History, e: Event)
    requires Extends(h', Then(h, e)) && !IsAttempt(e)
    ensures Extends(h', h)
  {
    if h' != Then(h, e) {
      HandledExtends(h'.before, h, e);
    }
  }

  // ---- Chunk sizes ----

  /** The chunk size last announced to the peer. */
  function Announced(h: History): nat {
    match h
    case Beginning => DEFAULT_CHUNK_SIZE
    case Then(before, e) => if e.Wrote? && e.outgoing.SetChunkSize? then e.outgoing.chunkSize else Announced(before)
  }

  /** The chunk size last announced by the peer. */
  function PeerAnnounced(h: History): nat {
    match h
    case Beginning => DEFAULT_CHUNK_SIZE
    case Then(before, e) =>
      if e.Received? && e.incoming.PeerChunkSize? then e.incoming.chunkSize else PeerAnnounced(before)
  }

  /** The writer switches to a size when, and only when, its announcement has just been written. */
  predicate Lockstep(h: History) {
    match h
    case Beginning => true
    case Then(before, e) =>
      if e.WriterSwitched? then
        before.Then? && before.event == Wrote(SetChunkSize(e.size)) && Lockstep(before.before)
      else
        !(e.Wrote? && e.outgoing.SetChunkSize?) && Lockstep(before)
  }

  /** The messages written, in order. */
  function Written(h: History, encode: Outgoing -> seq<byte>): seq<RawMessage> {
    if h == Beginning then []
    else Written(h.before, encode) + if h.event.Wrote? then [IntoRaw(h.event.outgoing, encode)] else []
  }

  /** The writer after a history: its contexts change with every message, its chunk size when it is switched. */
  function WriterAfter(h: History, encode: Outgoing -> seq<byte>): Sender {
    if h == Beginning then START
    else
      var s := WriterAfter(h.before, encode);
      match h.event
      case Wrote(m) => if s.size == 0 then s else s.(contexts := WriteMessage(s.contexts, s.size, IntoRaw(m, encode)).contexts)
      case WriterSwitched(n) => s.(size := n)
      case _ => s
  }

  /** The bytes of a history, each message cut by the chunk size the writer had at that moment. */
  function EncodedBytes(h: History, encode: Outgoing -> seq<byte>): seq<byte> {
    if h == Beginning then []
    else
      EncodedBytes(h.before, encode)
      + if h.event.Wrote? then MessageBytes(WriterAfter(h.before, encode), IntoRaw(h.event.outgoing, encode)) else []
  }

  /** The same history as a script of writes and announcements. */
  function ScriptOf(h: History, encode: Outgoing -> seq<byte>): seq<Action> {
    if h == Beginning then []
    else ScriptOf(h.before, encode) + if h.event.Wrote? then [ActionOf(h.event.outgoing, encode)] else []
  }

  function ActionOf(m: Outgoing, encode: Outgoing -> seq<byte>): Action {
    if m.SetChunkSize? then Announce(m.chunkSize) else Write(IntoRaw(m, encode))
  }

  predicate NoFailure(h: History) {
    h.Then? ==> !h.event.WriteFailed? && NoFailure(h.before)
  }

  lemma {:induction false} ScriptSaysWhatWasWritten(h: History, encode: Outgoing -> seq<byte>)
    ensures Messages(ScriptOf(h, encode)) == Written(h, encode)
  {
    if h.Then? {
      ScriptSaysWhatWasWritten(h.before, encode);
      if h.event.Wrote? {
        MessagesAppend(ScriptOf(h.before, encode), ActionOf(h.event.outgoing, encode));
      } else {
        assert Written(h, encode) == Written(h.before, encode) && ScriptOf(h, encode) == ScriptOf(h.before, encode);
      }
    }
  }

  /** In lockstep, the writer cuts every message by the size a peer following the announcements expects. */
  lemma {:induction false} LockstepEncoding(h: History, encode: Outgoing -> seq<byte>)
    requires Lockstep(h) && ValidScript(START, ScriptOf(h, encode))
    ensures EncodedBytes(h, encode) == Bytes(START, ScriptOf(h, encode))
    ensures WriterAfter(h, encode) == AfterScript(START, ScriptOf(h, encode))
    decreases h
  {
    if h.Then? {
      if h.event.Wrote? {
        ScriptAppend(START, ScriptOf(h.before, encode), ActionOf(h.event.outgoing, encode));
        LockstepEncoding(h.before, encode);
      } else if h.event.WriterSwitched? {
        SwitchIsAnnouncement(h, encode);
        ScriptAppend(START, ScriptOf(h.before.before, encode), Announce(h.event.size));
        LockstepEncoding(h.before.before, encode);
      } else {
        assert ScriptOf(h, encode) == ScriptOf(h.before, encode);
        LockstepEncoding(h.before, encode);
        assert EncodedBytes(h, encode) == EncodedBytes(h.before, encode);
      }
    }
  }

  /** The switch to a size and the message before it are one announcement. */
  lemma SwitchIsAnnouncement(h: History, encode: Outgoing -> seq<byte>)
    requires Lockstep(h) && h.Then? && h.event.WriterSwitched?
    ensures var a, early := Announce(h.event.size), h.before.before;
            var s := WriterAfter(early, encode);
            && ScriptOf(h, encode) == ScriptOf(early, encode) + [a]
            && EncodedBytes(h, encode) == EncodedBytes(early, encode) + MessageBytes(s, a.Message())
            && (s.size != 0 ==> WriterAfter(h, encode) == s.After(a))
  {
    var announced := h.before;
    assert ScriptOf(h, encode) == ScriptOf(announced, encode);
    assert EncodedBytes(h, encode) == EncodedBytes(announced, encode);
  }

  /**
   Everything the client writes arrives: a peer that starts with the default chunk
   size and follows the announcements hears every message, late by exactly what
   LateAll says, and exactly what was written if and only if every timestamp is kept.
   */
  lemma PeerHearsClient(h: History, encode: Outgoing -> seq<byte>)
    requires Lockstep(h) && NoFailure(h)
    requires ValidScript(START, ScriptOf(h, encode))
    ensures var received, script := ReceiveAll(map[], DEFAULT_CHUNK_SIZE, EncodedBytes(h, encode)).0, ScriptOf(h, encode);
            && received == HeardAll(START, map[], script)
            && AreLateBy(received, Written(h, encode), LateAll(START, map[], script))
            && (received == Written(h, encode) <==> ScriptKept(START, map[], script))
  {
    var script := ScriptOf(h, encode);
    LockstepEncoding(h, encode);
    ScriptSaysWhatWasWritten(h, encode);
    EmptyContextsInSync();
    EveryScriptIsHeard(START, map[], map[], script);
    HeardLate(START, map[], map[], script);
    ConversationRoundTrip(START, map[], map[], script);
  }

  /** If timestamps do not go back on a chunk stream, a peer hears exactly what the client wrote. */
  lemma PeerHearsClientInOrder(h: History, encode: Outgoing -> seq<byte>)
    requires Lockstep(h) && NoFailure(h)
    requires ValidScript(START, ScriptOf(h, encode)) && InOrder(Written(h, encode))
    ensures ReceiveAll(map[], DEFAULT_CHUNK_SIZE, EncodedBytes(h, encode)).0 == Written(h, encode)
  {
    ScriptSaysWhatWasWritten(h, encode);
    EmptyContextsInSync();
    InOrderIsKept(START, map[], ScriptOf(h, encode));
    PeerHearsClient(h, encode);
  }

  /**
   A run cut short by a write error, of whose last message m any part may have been
   sent: the peer hears all messages written before, and m as well if and only if
   all its bytes got through before the error.
   */
  lemma PeerHearsUpToFailure(h: History, m: Outgoing, encode: Outgoing -> seq<byte>, sent: seq<byte>)
    requires Lockstep(Then(h, WriteFailed(m))) && NoFailure(h)
    requires ValidScript(START, ScriptOf(h, encode) + [ActionOf(m, encode)])
    ensures ValidScript(START, ScriptOf(h, encode))
    ensures var script, bytes := ScriptOf(h, encode), MessageBytes(WriterAfter(h, encode), IntoRaw(m, encode));
            var received := ReceiveAll(map[], DEFAULT_CHUNK_SIZE, EncodedBytes(h, encode) + sent).0;
            && (sent < bytes ==> received == HeardAll(START, map[], script))
            && (sent == bytes ==> received == HeardAll(START, map[], script + [ActionOf(m, encode)]))
  {
    EmptyContextsInSync();
    CutShort(START, map[], map[], ScriptOf(h, encode), ActionOf(m, encode), sent);
    LockstepEncoding(h, encode);
    ActionSays(m, encode);
  }

  lemma ActionSays(m: Outgoing, encode: Outgoing -> seq<byte>)
    ensures ActionOf(m, encode).Message() == IntoRaw(m, encode)
  {
  }

  // ---- Acknowledgements ----

  /** An acknowledgement: the true number of bytes received, and the window in force. */
  datatype Ack = Ack(at: nat, window: nat)

  function LastAck(acks: seq<Ack>): nat {
    if acks == [] then 0 else acks[|acks| - 1].at
  }

  /** Every acknowledgement comes more than half a window after the one before it. */
  ghost predicate Spaced(acks: seq<Ack>) {
    forall i :: 0 <= i < |acks| ==> acks[i].at - LastAck(acks[..i]) > acks[i].window / 2
  }

  lemma SpacedAfter(acks: seq<Ack>, a: Ack)
    requires Spaced(acks) && a.at - LastAck(acks) > a.window / 2
    ensures Spaced(acks + [a])
  {
    forall i | 0 <= i <= |acks|
      ensures (acks + [a])[i].at - LastAck((acks + [a])[..i]) > (acks + [a])[i].window / 2
    {
      assert (acks + [a])[..i] == acks[..i];
    }
  }

  /** With one window w throughout, k acknowledgements take more than k half windows of data. */
  lemma {:induction false} AcksAreRare(acks: seq<Ack>, w: nat)
    requires Spaced(acks) && forall i :: 0 <= i < |acks| ==> acks[i].window == w
    ensures LastAck(acks) >= |acks| * (w / 2 + 1)
  {
    if acks != [] {
      var k := |acks| - 1;
      SpacedBefore(acks, k);
      AcksAreRare(acks[..k], w);
      assert acks[k].at - LastAck(acks[..k]) > w / 2;
      OneMoreTime(k, w / 2 + 1);
    }
  }

  lemma SpacedBefore(acks: seq<Ack>, k: nat)
    requires Spaced(acks) && k <= |acks|
    ensures Spaced(acks[..k])
  {
    forall i | 0 <= i < k ensures acks[..k][i].at - LastAck(acks[..k][..i]) > acks[..k][i].window / 2 {
      assert acks[..k][..i] == acks[..i];
    }
  }

  lemma OneMoreTime(k: nat, n: nat)
    ensures (k + 1) * n == k * n + n
  {
  }

  /** The counter on the wire is 32 bits wide. */
  function OnWire32(n: nat): nat {
    n % TWO_32
  }

  /** What a peer reconstructs from the wire values, given the counter before them. */
  function Reconstruct(last: nat, wire: seq<nat>): seq<nat>
    decreases |wire|
  {
    if wire == [] then []
    else
      var at := last + (wire[0] - last) % TWO_32;
      [at] + Reconstruct(at, wire[1..])
  }

  /** Counters that never fall behind and advance by less than 2^32 at a time. */
  predicate Advancing(last: nat, counters: seq<nat>)
    decreases |counters|
  {
    counters != [] ==> last <= counters[0] < last + TWO_32 && Advancing(counters[0], counters[1..])
  }

  /** The truncated values determine the true counters if and only if none advances by 2^32 or more. */
  lemma {:induction false} CountersRecovered(last: nat, counters: seq<nat>)
    ensures Reconstruct(last, OnWireAll(counters)) == counters <==> Advancing(last, counters)
    decreases |counters|
  {
    if counters != [] {
      var c, wire := counters[0], OnWireAll(counters);
      var at := last + (wire[0] - last) % TWO_32;
      OneCounter(last, c);
      assert wire[1..] == OnWireAll(counters[1..]);
      assert Reconstruct(last, wire) == [at] + Reconstruct(at, wire[1..]);
      if at == c {
        CountersRecovered(c, counters[1..]);
        assert counters == [c] + counters[1..];
        HeadThenTail(c, Reconstruct(c, wire[1..]), counters[1..]);
      } else {
        assert Reconstruct(last, wire)[0] == at;
      }
    }
  }

  function OnWireAll(counters: seq<nat>): seq<nat> {
    seq(|counters|, i requires 0 <= i < |counters| => OnWire32(counters[i]))
  }

  function Counters(acks: seq<Ack>): seq<nat> {
    seq(|acks|, i requires 0 <= i < |acks| => acks[i].at)
  }

  /** The values of the acknowledgements written. */
  function AckValues(h: History): seq<nat> {
    match h
    case Beginning => []
    case Then(before, e) =>
      AckValues(before) + if e.Wrote? && e.outgoing.Acknowledgement? then [e.outgoing.bytesReceived] else []
  }

  lemma OneMoreAck(acks: seq<Ack>, a: Ack)
    ensures OnWireAll(Counters(acks + [a])) == OnWireAll(Counters(acks)) + [OnWire32(a.at)]
  {
  }

  lemma OneCounter(last: nat, c: nat)
    ensures last + (OnWire32(c) - last) % TWO_32 == c <==> last <= c < last + TWO_32
  {
    var d := (OnWire32(c) - last) % TWO_32;
    assert 0 <= d < TWO_32;
    assert (c - last) % TWO_32 == d by {
      assert c == c / TWO_32 * TWO_32 + OnWire32(c);
      SameResidue(OnWire32(c) - last, c / TWO_32);
    }
    if last <= c < last + TWO_32 {
      assert (c - last) % TWO_32 == c - last;
    }
  }

  lemma SameResidue(x: int, q: int)
    ensures (x + q * TWO_32) % TWO_32 == x % TWO_32
  {
    var k, r := x / TWO_32, x % TWO_32;
    assert x + q * TWO_32 == (k + q) * TWO_32 + r;
  }

  // ---- Negotiation and audio tracks ----

  /** The negotiation steps among the messages written. */
  function Commands(h: History): seq<Outgoing> {
    match h
    case Beginning => []
    case Then(before, e) => Commands(before) + if e.Wrote? && IsCommand(e.outgoing) then [e.outgoing] else []
  }

  predicate IsCommand(m: Outgoing) {
    m.Connect? || m.CreateStream? || m.Publish? || m.SetChunkSize?
  }

  /** What the application asks to be sent. */
  datatype MediaEvent =
    | VideoData(timestamp: nat, data: seq<byte>)
    | VideoConfig(data: seq<byte>)
    | AudioData(trackId: nat, timestamp: nat, data: seq<byte>)
    | AudioConfig(trackId: nat, channels: AudioChannels, data: seq<byte>)
    | Metadata(data: seq<byte>)

  /** The channel layout last configured for a track, stereo if there was none. */
  function LatestChannels(events: seq<MediaEvent>, trackId: nat): AudioChannels {
    if events == [] then Stereo
    else
      var e := events[|events| - 1];
      if e.AudioConfig? && e.trackId == trackId then e.channels else LatestChannels(events[..|events| - 1], trackId)
  }

  predicate Configures(e: MediaEvent, trackId: nat) {
    e.AudioConfig? && e.trackId == trackId
  }

  /** The layout is that of the last configuration of the very track, whatever was sent for others, and stereo without one. */
  lemma {:induction false} LatestIsLastConfigured(events: seq<MediaEvent>, trackId: nat)
    ensures (forall i :: 0 <= i < |events| ==> !Configures(events[i], trackId)) ==> LatestChannels(events, trackId) == Stereo
    ensures forall i :: 0 <= i < |events| && Configures(events[i], trackId)
                        && (forall j :: i < j < |events| ==> !Configures(events[j], trackId))
                        ==> LatestChannels(events, trackId) == events[i].channels
  {
    if events != [] && !Configures(events[|events| - 1], trackId) {
      LatestIsLastConfigured(events[..|events| - 1], trackId);
    }
  }
}
