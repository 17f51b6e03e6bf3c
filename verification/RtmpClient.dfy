/**
 The control state of an RTMP client: negotiation, the default handler of control
 messages with its acknowledgements, and sending media.

 The connection below it is arbitrary: any write may fail, and what is read, how
 many bytes that takes, and when reading fails are parameters.
 */
module RtmpClient {
  import opened Common
  import opened RtmpStream
  import opened RtmpClientHistory

  const OUTGOING_CHUNK_SIZE := 4096
  const CONNECT_TRANSACTION_ID := 1
  const CREATE_STREAM_TRANSACTION_ID := 2

  /** One attempt to read a message: what it gave, and by how much the byte counter grew meanwhile. */
  datatype Read = Read(grown: nat, outcome: ReadOutcome)
  datatype ReadOutcome = Arrived(msg: Incoming) | NothingPending | UnparsableMessage | ReadError

  datatype Error = WriteError | StreamError | ParseError | ErrorOnConnect | ErrorOnCreateStream

  datatype Progress = WaitingForConnectResult | WaitingForCreateStreamResult | WaitingForOnStatus(streamId: nat)

  /** The result of matching a message against the response awaited. */
  datatype Match = NoMatch | Matched(streamId: nat) | Rejected(error: Error)

  function MatchResult(msg: Incoming, transactionId: nat, onError: Error): Match {
    if !msg.CommandResult? || msg.transactionId != transactionId then NoMatch
    else
      match msg.response
      case ErrorResponse => Rejected(onError)
      case UndecodableResponse => Rejected(ParseError)
      case SuccessResponse(streamId) => Matched(streamId)
  }

  function TryMatchConnectResponse(state: Progress, msg: Incoming): Match {
    if state != WaitingForConnectResult then NoMatch else MatchResult(msg, CONNECT_TRANSACTION_ID, ErrorOnConnect)
  }

  function TryMatchCreateStreamResponse(state: Progress, msg: Incoming): Match {
    if state != WaitingForCreateStreamResult then NoMatch else MatchResult(msg, CREATE_STREAM_TRANSACTION_ID, ErrorOnCreateStream)
  }

  function TryMatchOnStatus(state: Progress, msg: Incoming): Match {
    if state.WaitingForOnStatus? && msg == OnStatus(state.streamId) then Matched(state.streamId) else NoMatch
  }

  /** The negotiation messages that have been written in each state. */
  function StepsTaken(state: Progress): seq<Outgoing> {
    match state
    case WaitingForConnectResult => [Connect]
    case WaitingForCreateStreamResult => [Connect, CreateStream]
    case WaitingForOnStatus(streamId) => [Connect, CreateStream, Publish(streamId), SetChunkSize(OUTGOING_CHUNK_SIZE)]
  }

  /** The first few steps of a negotiation. */
  ghost predicate PartlyTaken(commands: seq<Outgoing>) {
    exists streamId: nat :: commands <= StepsTaken(WaitingForOnStatus(streamId))
  }

  lemma StepsArePrefix(state: Progress)
    ensures PartlyTaken(StepsTaken(state))
  {
    var streamId := if state.WaitingForOnStatus? then state.streamId else 0;
    assert StepsTaken(state) <= StepsTaken(WaitingForOnStatus(streamId));
  }

  /** What the arrivals make of a negotiation whose writes all succeed. */
  function Negotiated(state: Progress, arrivals: seq<Read>): Result<nat, Error>
    decreases |arrivals|
  {
    if arrivals == [] then Err(StreamError)
    else
      var (next, r) := ReadStep(state, arrivals[0].outcome);
      if r.Some? then r.value else Negotiated(next, arrivals[1..])
  }

  function ReadStep(state: Progress, outcome: ReadOutcome): (Progress, Option<Result<nat, Error>>) {
    match outcome
    case UnparsableMessage => (state, None)
    case NothingPending => (state, None)
    case ReadError => (state, Some(Err(StreamError)))
    case Arrived(msg) => NextStep(state, msg)
  }

  function NextStep(state: Progress, msg: Incoming): (Progress, Option<Result<nat, Error>>) {
    var connected, created := TryMatchConnectResponse(state, msg), TryMatchCreateStreamResponse(state, msg);
    var published := TryMatchOnStatus(state, msg);
    if connected.Rejected? then (state, Some(Err(connected.error)))
    else if connected.Matched? then (WaitingForCreateStreamResult, None)
    else if created.Rejected? then (state, Some(Err(created.error)))
    else if created.Matched? then (WaitingForOnStatus(created.streamId), None)
    else if published.Matched? then (state, Some(Ok(published.streamId)))
    else (state, None)
  }

  /** Neither a command result nor a status: nothing a negotiation waits for. */
  predicate IsOther(outcome: ReadOutcome) {
    match outcome
    case Arrived(msg) => !msg.CommandResult? && !msg.OnStatus?
    case NothingPending => true
    case UnparsableMessage => true
    case ReadError => false
  }

  /** The first read that a negotiation could wait for decides the next step. */
  lemma {:induction false} OthersAreSkipped(state: Progress, arrivals: seq<Read>, n: nat)
    requires n < |arrivals| && forall i :: 0 <= i < n ==> IsOther(arrivals[i].outcome)
    ensures var (next, r) := ReadStep(state, arrivals[n].outcome);
            Negotiated(state, arrivals) == if r.Some? then r.value else Negotiated(next, arrivals[n + 1..])
    decreases n
  {
    if n > 0 {
      OthersAreSkipped(state, arrivals[1..], n - 1);
      assert arrivals[1..][n - 1] == arrivals[n] && arrivals[1..][n..] == arrivals[n + 1..];
    }
  }

  /**
   A peer that answers connect (transaction 1) and createStream (transaction 2) with
   success and then reports the status of the stream created gets the negotiation
   done for that stream, whatever else it sends in between.
   */
  lemma NegotiationSucceeds(arrivals: seq<Read>, i: nat, j: nat, k: nat, connected: nat, streamId: nat)
    requires i < j < k < |arrivals|
    requires arrivals[i].outcome == Arrived(CommandResult(1, SuccessResponse(connected)))
    requires arrivals[j].outcome == Arrived(CommandResult(2, SuccessResponse(streamId)))
    requires arrivals[k].outcome == Arrived(OnStatus(streamId))
    requires forall l :: 0 <= l < k && l != i && l != j ==> IsOther(arrivals[l].outcome)
    ensures Negotiated(WaitingForConnectResult, arrivals) == Ok(streamId)
  {
    OthersAreSkipped(WaitingForConnectResult, arrivals, i);
    SkipFrom(WaitingForCreateStreamResult, arrivals, i + 1, j);
    SkipFrom(WaitingForOnStatus(streamId), arrivals, j + 1, k);
  }

  lemma SkipFrom(state: Progress, arrivals: seq<Read>, from: nat, n: nat)
    requires from <= n < |arrivals| && forall l :: from <= l < n ==> IsOther(arrivals[l].outcome)
    ensures var (next, r) := ReadStep(state, arrivals[n].outcome);
            Negotiated(state, arrivals[from..]) == if r.Some? then r.value else Negotiated(next, arrivals[n + 1..])
  {
    OthersAreSkipped(state, arrivals[from..], n - from);
    assert arrivals[from..][n - from + 1..] == arrivals[n + 1..];
  }

  /** An error in answer to connect ends the negotiation, and so does one in answer to createStream. */
  lemma NegotiationRejected(arrivals: seq<Read>, i: nat)
    requires i < |arrivals| && forall l :: 0 <= l < i ==> IsOther(arrivals[l].outcome)
    ensures arrivals[i].outcome == Arrived(CommandResult(1, ErrorResponse))
            ==> Negotiated(WaitingForConnectResult, arrivals) == Err(ErrorOnConnect)
    ensures arrivals[i].outcome == Arrived(CommandResult(2, ErrorResponse))
            ==> Negotiated(WaitingForCreateStreamResult, arrivals) == Err(ErrorOnCreateStream)
  {
    OthersAreSkipped(WaitingForConnectResult, arrivals, i);
    OthersAreSkipped(WaitingForCreateStreamResult, arrivals, i);
  }

  predicate AckDue(window: Option<nat>, bytesRead: nat, lastAck: nat) {
    window.Some? && SaturatingSub(bytesRead, lastAck) > window.value / 2
  }

  function AfterReply(h: History, msg: Incoming): History {
    match msg
    case PeerBandwidth(bandwidth) => Then(h, Wrote(WindowAckSize(bandwidth)))
    case PingRequest(timestamp) => Then(h, Wrote(PingResponse(timestamp)))
    case _ => h
  }

  function AfterAck(h: History, window: Option<nat>, bytesRead: nat, lastAck: nat): History {
    if AckDue(window, bytesRead, lastAck) then Then(h, Wrote(Acknowledgement(OnWire32(bytesRead)))) else h
  }

  /** A ping is answered with its own timestamp, a bandwidth with a window of that size, and nothing else is answered; an acknowledgement may follow. */
  ghost predicate IsAnswered(h': History, h: History, msg: Incoming) {
    var received := Then(h, Received(msg));
    var answered :=
      if msg.PingRequest? then Then(received, Wrote(PingResponse(msg.timestamp)))
      else if msg.PeerBandwidth? then Then(received, Wrote(WindowAckSize(msg.bandwidth)))
      else received;
    h' == answered || (h'.Then? && h'.before == answered && h'.event.Wrote? && h'.event.outgoing.Acknowledgement?)
  }

  /** Handling a message answers it so, and acknowledges exactly when more than half a window is due. */
  lemma AnswerAndAck(h: History, msg: Incoming, window: Option<nat>, bytesRead: nat, lastAck: nat)
    ensures var h' := AfterAck(AfterReply(Then(h, Received(msg)), msg), window, bytesRead, lastAck);
            && IsAnswered(h', h, msg)
            && (h'.event == Wrote(Acknowledgement(bytesRead % 0x1_0000_0000))
                <==> window.Some? && bytesRead - lastAck > window.value / 2)
  {
  }

  /** The last thing that happened is a failed write. */
  predicate Failed(h: History) {
    h.Then? && h.event.WriteFailed?
  }

  class RtmpClientState {
    var bytesRead: nat
    var readerChunkSize: nat
    var writerChunkSize: nat
    var windowSize: Option<nat>
    var lastAck: nat
    /** Channel layouts by message stream and track. */
    var audioChannels: map<(nat, nat), AudioChannels>
    ghost var history: History
    ghost var acks: seq<Ack>

    ghost predicate Valid()
      reads this
    {
      && Lockstep(history)
      && writerChunkSize == Announced(history)
      && readerChunkSize == PeerAnnounced(history)
      && Spaced(acks) && lastAck == LastAck(acks) <= bytesRead
      && AckValues(history) == OnWireAll(Counters(acks))
    }

    /** After the handshake, which may have read some bytes already. */
    constructor (bytesRead: nat)
      ensures Valid() && history == Beginning && acks == [] && this.bytesRead == bytesRead
      ensures windowSize == None && lastAck == 0 && audioChannels == map[]
    {
      this.bytesRead := bytesRead;
      readerChunkSize, writerChunkSize := DEFAULT_CHUNK_SIZE, DEFAULT_CHUNK_SIZE;
      windowSize, lastAck, audioChannels := None, 0, map[];
      history, acks := Beginning, [];
    }

    /** Writes a message, or fails. Only SetChunkSize needs a switch of the writer to follow. */
    method WriteMsg(msg: Outgoing) returns (ok: bool)
      requires Valid() && !msg.SetChunkSize? && !msg.Acknowledgement?
      modifies `history
      ensures Valid()
      ensures history == Then(old(history), if ok then Wrote(msg) else WriteFailed(msg))
      ensures Commands(history) == Commands(old(history)) + if ok && IsCommand(msg) then [msg] else []
    {
      ok := *;
      Log(if ok then Wrote(msg) else WriteFailed(msg));
    }

    /** Records an event that changes nothing the history keeps count of, except commands. */
    ghost method Log(e: Event)
      requires Valid() && !e.WriterSwitched? && (e.Wrote? ==> !e.outgoing.SetChunkSize? && !e.outgoing.Acknowledgement?)
      requires e.Received? ==> !e.incoming.PeerChunkSize?
      modifies `history
      ensures Valid() && history == Then(old(history), e)
    {
      history := Then(history, e);
    }

    /** Records a message received, and applies it if it is the peer's chunk size. */
    method Receive(msg: Incoming)
      requires Valid()
      modifies `history, `readerChunkSize
      ensures Valid() && history == Then(old(history), Received(msg))
      ensures readerChunkSize == if msg.PeerChunkSize? then msg.chunkSize else old(readerChunkSize)
    {
      history := Then(history, Received(msg));
      if msg.PeerChunkSize? {
        readerChunkSize := msg.chunkSize;
      }
    }

    /** Announces a chunk size and, only if that could be written, switches the writer to it. */
    method AnnounceChunkSize(size: nat) returns (ok: bool)
      requires Valid()
      modifies `history, `writerChunkSize
      ensures Valid()
      ensures ok ==> writerChunkSize == size && history == Then(Then(old(history), Wrote(SetChunkSize(size))), WriterSwitched(size))
      ensures !ok ==> writerChunkSize == old(writerChunkSize) && history == Then(old(history), WriteFailed(SetChunkSize(size)))
    {
      ok := *;
      if ok {
        history := Then(Then(history, Wrote(SetChunkSize(size))), WriterSwitched(size));
        writerChunkSize := size;
      } else {
        Log(WriteFailed(SetChunkSize(size)));
      }
    }

    method MaybeSendAck() returns (ok: bool)
      requires Valid()
      modifies `history, `acks, `lastAck
      ensures Valid() && lastAck >= old(lastAck)
      ensures ok && windowSize.Some? ==> bytesRead - lastAck <= windowSize.value / 2
      ensures ok ==> history == AfterAck(old(history), windowSize, bytesRead, old(lastAck))
      ensures acks == old(acks) + if ok && AckDue(windowSize, bytesRead, old(lastAck)) then [Ack(bytesRead, windowSize.value)] else []
      ensures Extends(history, old(history)) && (!ok ==> Failed(history))
      ensures Commands(history) == Commands(old(history))
    {
      if windowSize == None || SaturatingSub(bytesRead, lastAck) <= windowSize.value / 2 {
        return true;
      }
      ok := WriteAck(Ack(bytesRead, windowSize.value));
    }

    /** Acknowledges the bytes read, in the 32 bits of the message, and remembers having done so. */
    method WriteAck(ghost a: Ack) returns (ok: bool)
      requires Valid() && a.at == bytesRead && bytesRead - lastAck > a.window / 2
      modifies `history, `acks, `lastAck
      ensures Valid() && lastAck == if ok then bytesRead else old(lastAck)
      ensures var e := Acknowledgement(OnWire32(bytesRead));
              history == Then(old(history), if ok then Wrote(e) else WriteFailed(e))
      ensures acks == if ok then old(acks) + [a] else old(acks)
    {
      ok := *;
      if ok {
        SpacedAfter(acks, a);
        OneMoreAck(acks, a);
        history, acks := Then(history, Wrote(Acknowledgement(OnWire32(bytesRead)))), acks + [a];
        lastAck := bytesRead;
      } else {
        Log(WriteFailed(Acknowledgement(OnWire32(bytesRead))));
      }
    }

    /** Sends the reply a message calls for, if it calls for one. */
    method SendReply(msg: Incoming) returns (ok: bool)
      requires Valid()
      modifies `history
      ensures Valid() && Commands(history) == Commands(old(history))
      ensures ok ==> history == AfterReply(old(history), msg)
      ensures Extends(history, old(history)) && (!ok ==> Failed(history))
    {
      match msg {
        case PeerBandwidth(bandwidth) => ok := WriteMsg(WindowAckSize(bandwidth));
        case PingRequest(timestamp) => ok := WriteMsg(PingResponse(timestamp));
        case _ => ok := true;
      }
    }

    /** Handles a control message: applies it, replies to it, and acknowledges what was read if that is due. */
    method DefaultMsgHandler(msg: Incoming) returns (ok: bool)
      requires Valid()
      modifies `history, `acks, `lastAck, `windowSize, `readerChunkSize
      ensures Valid() && lastAck >= old(lastAck)
      ensures readerChunkSize == if msg.PeerChunkSize? then msg.chunkSize else old(readerChunkSize)
      ensures windowSize == if msg.PeerWindowAckSize? then Some(msg.windowSize) else old(windowSize)
      ensures ok && windowSize.Some? ==> bytesRead - lastAck <= windowSize.value / 2
      ensures ok ==> history == AfterAck(AfterReply(Then(old(history), Received(msg)), msg), windowSize, bytesRead, old(lastAck))
      ensures Extends(history, old(history)) && Extends(history, Then(old(history), Received(msg))) && (!ok ==> Failed(history))
      ensures Commands(history) == Commands(old(history))
    {
      Receive(msg);
      if msg.PeerWindowAckSize? {
        windowSize := Some(msg.windowSize);
      }
      ghost var received := history;
      ok := SendReply(msg);
      if ok {
        ghost var replied := history;
        ok := MaybeSendAck();
        ExtendsTransitive(history, replied, received);
      }
      HandledExtends(history, old(history), Received(msg));
    }

    /** Writes one step of the negotiation. */
    method TakeStep(msg: Outgoing) returns (ok: bool)
      requires Valid() && IsCommand(msg)
      modifies `history, `writerChunkSize
      ensures Valid()
      ensures Extends(history, old(history)) && (!ok ==> Failed(history))
      ensures Commands(history) == Commands(old(history)) + if ok then [msg] else []
      ensures writerChunkSize == if ok && msg.SetChunkSize? then msg.chunkSize else old(writerChunkSize)
    {
      if msg.SetChunkSize? {
        ok := AnnounceChunkSize(msg.chunkSize);
      } else {
        ok := WriteMsg(msg);
      }
    }

    /** One message during the negotiation: a response takes the next step, anything else is handled as usual. */
    method Advance(state: Progress, msg: Incoming) returns (next: Progress, r: Option<Result<nat, Error>>)
      requires Valid() && Commands(history) == StepsTaken(state)
      requires state.WaitingForOnStatus? ==> writerChunkSize == OUTGOING_CHUNK_SIZE
      modifies `history, `acks, `lastAck, `windowSize, `readerChunkSize, `writerChunkSize
      ensures Valid() && lastAck >= old(lastAck) && Extends(history, old(history))
      ensures (Failed(history) && r == Some(Err(WriteError))) || (next, r) == NextStep(state, msg)
      ensures r == None ==> Commands(history) == StepsTaken(next)
      ensures r == None && next.WaitingForOnStatus? ==> writerChunkSize == OUTGOING_CHUNK_SIZE
      ensures r.Some? && r.value.Ok? ==> state == WaitingForOnStatus(r.value.value) && next == state
      ensures r.Some? && r.value.Ok? ==> Commands(history) == StepsTaken(state) && writerChunkSize == OUTGOING_CHUNK_SIZE
      ensures r.Some? && r.value.Err? ==> PartlyTaken(Commands(history))
    {
      next, r := state, None;
      var connected := TryMatchConnectResponse(state, msg);
      var created := TryMatchCreateStreamResponse(state, msg);
      var published := TryMatchOnStatus(state, msg);
      StepsArePrefix(state);
      if connected.Rejected? {
        r := Some(Err(connected.error));
      } else if connected.Matched? {
        next := WaitingForCreateStreamResult;
        var ok := TakeStep(CreateStream);
        r := if ok then None else Some(Err(WriteError));
      } else if created.Rejected? {
        r := Some(Err(created.error));
      } else if created.Matched? {
        next := WaitingForOnStatus(created.streamId);
        r := PublishAndAnnounce(created.streamId);
      } else if published.Matched? {
        r := Some(Ok(published.streamId));
      } else {
        var ok := DefaultMsgHandler(msg);
        r := if ok then None else Some(Err(WriteError));
      }
    }

    /** One read during the negotiation. */
    method TakeRead(state: Progress, read: Read) returns (next: Progress, r: Option<Result<nat, Error>>)
      requires Valid() && Commands(history) == StepsTaken(state)
      requires state.WaitingForOnStatus? ==> writerChunkSize == OUTGOING_CHUNK_SIZE
      modifies `history, `acks, `lastAck, `windowSize, `readerChunkSize, `writerChunkSize, `bytesRead
      ensures Valid() && lastAck >= old(lastAck) && bytesRead >= old(bytesRead) && Extends(history, old(history))
      ensures (Failed(history) && r == Some(Err(WriteError))) || (next, r) == ReadStep(state, read.outcome)
      ensures r == None ==> Commands(history) == StepsTaken(next)
      ensures r == None && next.WaitingForOnStatus? ==> writerChunkSize == OUTGOING_CHUNK_SIZE
      ensures r.Some? && r.value.Ok? ==>
                Commands(history) == StepsTaken(WaitingForOnStatus(r.value.value)) && writerChunkSize == OUTGOING_CHUNK_SIZE
      ensures r.Some? && r.value.Err? ==> PartlyTaken(Commands(history))
    {
      bytesRead := bytesRead + read.grown;
      match read.outcome {
        case UnparsableMessage => next, r := state, None;
        case NothingPending => next, r := state, None;
        case ReadError =>
          StepsArePrefix(state);
          next, r := state, Some(Err(StreamError));
        case Arrived(msg) => next, r := Advance(state, msg);
      }
    }

    method PublishAndAnnounce(streamId: nat) returns (r: Option<Result<nat, Error>>)
      requires Valid() && Commands(history) == [Connect, CreateStream]
      modifies `history, `writerChunkSize
      ensures Valid() && Extends(history, old(history))
      ensures r == None ==> Commands(history) == StepsTaken(WaitingForOnStatus(streamId)) && writerChunkSize == OUTGOING_CHUNK_SIZE
      ensures r != None ==> Failed(history) && r == Some(Err(WriteError)) && PartlyTaken(Commands(history))
    {
      var ok := TakeStep(Publish(streamId));
      if ok {
        ghost var published := history;
        ok := TakeStep(SetChunkSize(OUTGOING_CHUNK_SIZE));
        ExtendsTransitive(history, published, old(history));
      }
      assert Commands(history) <= StepsTaken(WaitingForOnStatus(streamId));
      r := if ok then None else Some(Err(WriteError));
    }

    /**
     Negotiates until the stream is published. arrivals is what the connection
     delivers before it ends. Success means that each step was written once, in
     order, and that the writer uses the chunk size announced last.
     */
    method NegotiateConnection(arrivals: seq<Read>) returns (r: Result<nat, Error>)
      requires Valid() && Commands(history) == []
      modifies `history, `acks, `lastAck, `windowSize, `readerChunkSize, `writerChunkSize, `bytesRead
      ensures Valid() && lastAck >= old(lastAck) && bytesRead >= old(bytesRead) && Extends(history, old(history))
      ensures (Failed(history) && r == Err(WriteError)) || r == Negotiated(WaitingForConnectResult, arrivals)
      ensures r.Ok? ==> Commands(history) == StepsTaken(WaitingForOnStatus(r.value)) && writerChunkSize == OUTGOING_CHUNK_SIZE
      ensures r.Err? ==> PartlyTaken(Commands(history))
    {
      var state := WaitingForConnectResult;
      var ok := TakeStep(Connect);
      if !ok {
        assert Commands(history) <= StepsTaken(WaitingForOnStatus(0));
        return Err(WriteError);
      }
      var i := 0;
      assert arrivals[0..] == arrivals;
      while i < |arrivals|
        invariant 0 <= i <= |arrivals|
        invariant Negotiated(WaitingForConnectResult, arrivals) == Negotiated(state, arrivals[i..])
        invariant Valid() && lastAck >= old(lastAck) && bytesRead >= old(bytesRead) && Extends(history, old(history))
        invariant Commands(history) == StepsTaken(state)
        invariant state.WaitingForOnStatus? ==> writerChunkSize == OUTGOING_CHUNK_SIZE
      {
        assert arrivals[i..][0] == arrivals[i] && arrivals[i..][1..] == arrivals[i + 1..];
        ghost var before := history;
        var outcome;
        state, outcome := TakeRead(state, arrivals[i]);
        ExtendsTransitive(history, before, old(history));
        if outcome != None {
          return outcome.value;
        }
        i := i + 1;
      }
      StepsArePrefix(state);
      return Err(StreamError);
    }
  }

  function ChannelsOf(m: map<(nat, nat), AudioChannels>, streamId: nat, trackId: nat): AudioChannels {
    if (streamId, trackId) in m then m[(streamId, trackId)] else Stereo
  }

  /** The message for an event on a stream, given the events before it. */
  function MessageFor(streamId: nat, before: seq<MediaEvent>, event: MediaEvent): Outgoing {
    match event
    case VideoData(timestamp, data) => Video(streamId, false, timestamp, data)
    case VideoConfig(data) => Video(streamId, true, 0, data)
    case AudioData(trackId, timestamp, data) =>
      Audio(streamId, false, timestamp, trackId, LatestChannels(before, trackId), data)
    case AudioConfig(trackId, channels, data) => Audio(streamId, true, 0, trackId, channels, data)
    case Metadata(data) => MetaData(streamId, data)
  }

  /** One attempt for each event, in order, and each with the event's message. */
  ghost predicate AreAttemptsFor(attempts: seq<Event>, streamId: nat, events: seq<MediaEvent>) {
    && |attempts| == |events|
    && forall i :: 0 <= i < |events| ==> IsAttemptFor(attempts[i], MessageFor(streamId, events[..i], events[i]))
  }

  predicate IsAttemptFor(e: Event, m: Outgoing) {
    e == Wrote(m) || e == WriteFailed(m)
  }

  lemma OneMoreAttempt(attempts: seq<Event>, streamId: nat, events: seq<MediaEvent>, e: Event, event: MediaEvent)
    requires AreAttemptsFor(attempts, streamId, events) && IsAttemptFor(e, MessageFor(streamId, events, event))
    ensures AreAttemptsFor(attempts + [e], streamId, events + [event])
  {
    var events' := events + [event];
    forall i | 0 <= i < |events'|
      ensures IsAttemptFor((attempts + [e])[i], MessageFor(streamId, events'[..i], events'[i]))
    {
      assert events'[..i] == events[..i];
      assert i == |events| ==> events[..i] == events;
    }
  }

  /** The layout is that of the last configuration of the track among the events before i, and stereo if there is none. */
  ghost predicate IsLayout(channels: AudioChannels, events: seq<MediaEvent>, i: nat, trackId: nat)
    requires i <= |events|
  {
    && ((forall j :: 0 <= j < i ==> !Configures(events[j], trackId)) ==> channels == Stereo)
    && forall j :: 0 <= j < i && Configures(events[j], trackId) && (forall k :: j < k < i ==> !Configures(events[k], trackId))
         ==> channels == events[j].channels
  }

  /** A message is what event i asks for: its kind, stream, time, track and data, and for audio data the layout configured last. */
  ghost predicate IsAskedFor(m: Outgoing, streamId: nat, events: seq<MediaEvent>, i: nat)
    requires i < |events|
  {
    match events[i]
    case VideoData(timestamp, data) =>
      m.Video? && m.streamId == streamId && !m.isConfig && m.timestamp == timestamp && m.data == data
    case VideoConfig(data) =>
      m.Video? && m.streamId == streamId && m.isConfig && m.timestamp == 0 && m.data == data
    case AudioData(trackId, timestamp, data) =>
      && m.Audio? && m.streamId == streamId && !m.isConfig && m.timestamp == timestamp && m.trackId == trackId && m.data == data
      && IsLayout(m.channels, events, i, trackId)
    case AudioConfig(trackId, channels, data) =>
      && m.Audio? && m.streamId == streamId && m.isConfig && m.timestamp == 0 && m.trackId == trackId && m.data == data
      && m.channels == channels
    case Metadata(data) =>
      m.MetaData? && m.streamId == streamId && m.data == data
  }

  lemma MessageIsAskedFor(streamId: nat, events: seq<MediaEvent>, i: nat)
    requires i < |events|
    ensures IsAskedFor(MessageFor(streamId, events[..i], events[i]), streamId, events, i)
  {
    if events[i].AudioData? {
      LatestIsLastConfigured(events[..i], events[i].trackId);
      LayoutBefore(LatestChannels(events[..i], events[i].trackId), events, i, events[i].trackId);
    }
  }

  lemma LayoutBefore(channels: AudioChannels, events: seq<MediaEvent>, i: nat, trackId: nat)
    requires i <= |events| && IsLayout(channels, events[..i], i, trackId)
    ensures IsLayout(channels, events, i, trackId)
  {
    assert forall j :: 0 <= j < i ==> events[..i][j] == events[j];
  }

  class RtmpClient {
    const state: RtmpClientState
    const streamId: nat
    /** Everything the application asked to be sent. */
    ghost var events: seq<MediaEvent>

    /** The media messages of the connection are those of the events, once each and in order. */
    ghost predicate Valid()
      reads this, state
    {
      && state.Valid()
      && (forall t: nat :: LatestChannels(events, t) == ChannelsOf(state.audioChannels, streamId, t))
      && AreAttemptsFor(Attempts(state.history), streamId, events)
    }

    constructor (state: RtmpClientState, streamId: nat)
      requires state.Valid() && state.audioChannels == map[] && Attempts(state.history) == []
      ensures Valid() && this.state == state && this.streamId == streamId && events == []
    {
      this.state, this.streamId := state, streamId;
      events := [];
    }

    /** Negotiates after a handshake that read some bytes, and gives a client for the stream published. */
    static method Connect(bytesRead: nat, arrivals: seq<Read>) returns (r: Result<RtmpClient, Error>)
      ensures r.Ok? ==>
                && fresh(r.value) && fresh(r.value.state) && r.value.Valid() && r.value.events == []
                && Commands(r.value.state.history) == StepsTaken(WaitingForOnStatus(r.value.streamId))
                && r.value.state.writerChunkSize == OUTGOING_CHUNK_SIZE
    {
      var state := new RtmpClientState(bytesRead);
      var streamId := state.NegotiateConnection(arrivals);
      if streamId.Err? {
        return Err(streamId.error);
      }
      ExtendsKeepsAttempts(state.history, Beginning);
      var client := new RtmpClient(state, streamId.value);
      return Ok(client);
    }

    /** Every event has been tried exactly once, in order, with the message it asks for. */
    lemma MediaIsAskedFor(i: nat)
      requires Valid()
      ensures |Attempts(state.history)| == |events|
      ensures i < |events| ==>
                var e := Attempts(state.history)[i];
                (e.Wrote? || e.WriteFailed?) && IsAskedFor(e.outgoing, streamId, events, i)
    {
      if i < |events| {
        MessageIsAskedFor(streamId, events, i);
      }
    }

    /** Sends one event and then handles what is pending; pending is what the connection delivers meanwhile. */
    method Send(event: MediaEvent, pending: seq<Read>) returns (ok: bool)
      requires Valid()
      modifies this`events, state
      ensures Valid() && events == old(events) + [event]
      ensures state.lastAck >= old(state.lastAck) && state.writerChunkSize == old(state.writerChunkSize)
      ensures Extends(state.history, Then(old(state.history), Wrote(MessageFor(streamId, old(events), event))))
           || (!ok && state.history == Then(old(state.history), WriteFailed(MessageFor(streamId, old(events), event))))
      ensures Commands(state.history) == Commands(old(state.history))
    {
      LatestAfter(events, event);
      var msg;
      match event {
        case VideoData(timestamp, data) => msg := Video(streamId, false, timestamp, data);
        case VideoConfig(data) => msg := Video(streamId, true, 0, data);
        case AudioData(trackId, timestamp, data) =>
          var channels := ChannelsOf(state.audioChannels, streamId, trackId);
          msg := Audio(streamId, false, timestamp, trackId, channels, data);
        case AudioConfig(trackId, channels, data) =>
          state.audioChannels := state.audioChannels[(streamId, trackId) := channels];
          msg := Audio(streamId, true, 0, trackId, channels, data);
        case Metadata(data) => msg := MetaData(streamId, data);
      }
      ok := WriteMedia(event, msg);
      if !ok {
        return;
      }
      ok := HandlePending(pending);
    }

    /** Writes the message of one event. */
    method WriteMedia(ghost event: MediaEvent, msg: Outgoing) returns (ok: bool)
      requires state.Valid() && AreAttemptsFor(Attempts(state.history), streamId, events)
      requires msg == MessageFor(streamId, events, event)
      requires forall t: nat :: LatestChannels(events + [event], t) == ChannelsOf(state.audioChannels, streamId, t)
      modifies this`events, state`history
      ensures Valid() && events == old(events) + [event]
      ensures state.history == Then(old(state.history), if ok then Wrote(msg) else WriteFailed(msg))
      ensures Commands(state.history) == Commands(old(state.history))
    {
      ok := state.WriteMsg(msg);
      OneMoreAttempt(old(Attempts(state.history)), streamId, events, if ok then Wrote(msg) else WriteFailed(msg), event);
      events := events + [event];
    }

    /** Reads and handles messages until none is pending. */
    method HandlePending(pending: seq<Read>) returns (ok: bool)
      requires Valid()
      modifies state
      ensures Valid() && state.lastAck >= old(state.lastAck) && state.writerChunkSize == old(state.writerChunkSize)
      ensures Extends(state.history, old(state.history))
      ensures Commands(state.history) == Commands(old(state.history))
    {
      var i := 0;
      while i < |pending|
        invariant 0 <= i <= |pending|
        invariant Valid() && state.lastAck >= old(state.lastAck) && state.writerChunkSize == old(state.writerChunkSize)
        invariant Extends(state.history, old(state.history))
        invariant Commands(state.history) == Commands(old(state.history))
      {
        state.bytesRead := state.bytesRead + pending[i].grown;
        i := i + 1;
        match pending[i - 1].outcome
        case NothingPending => return true;
        case UnparsableMessage => return false;
        case ReadError => return false;
        case Arrived(msg) =>
          ghost var before := state.history;
          ok := state.DefaultMsgHandler(msg);
          ExtendsKeepsAttempts(state.history, before);
          ExtendsTransitive(state.history, before, old(state.history));
          if !ok {
            return;
          }
      }
      return true;
    }
  }

  lemma LatestAfter(events: seq<MediaEvent>, e: MediaEvent)
    ensures forall t: nat :: LatestChannels(events + [e], t)
                             == if e.AudioConfig? && e.trackId == t then e.channels else LatestChannels(events, t)
  {
    assert (events + [e])[..|events|] == events;
  }
}
