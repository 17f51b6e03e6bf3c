/**
 Whole conversations: a sender that writes messages and announces chunk sizes,
 and what a receiver that follows the announcements hears.
 */
module RtmpConversation {
  import opened Common
  import opened ByteOrder
  import opened RtmpChunk
  import opened RtmpStream
  import opened RtmpRoundTrip

  const TWO_31 := 0x8000_0000

  // ---- Sender ----

  /** Announcing a chunk size writes SetChunkSize and then switches the writer to it. */
  datatype Action = Write(message: RawMessage) | Announce(size: nat) {
    function Message(): RawMessage {
      if Write? then message else RawMessage(SET_CHUNK_SIZE_TYPE, 0, PROTOCOL_CHUNK_STREAM_ID, 0, Be32(size))
    }
  }

  datatype Sender = Sender(contexts: WriterContexts, size: nat) {
    function After(a: Action): Sender
      requires 1 <= size
    {
      Sender(WriteMessage(contexts, size, a.Message()).contexts, if a.Announce? then a.size else size)
    }
  }

  function Messages(script: seq<Action>): seq<RawMessage> {
    if script == [] then [] else [script[0].Message()] + Messages(script[1..])
  }

  /** The sender can write the action: fields fit the wire, sizes are positive 31-bit numbers. */
  predicate Writable(s: Sender, a: Action) {
    && 1 <= s.size
    && Representable(a.Message())
    && (Lookup(s.contexts, a.Message().csId) == None ==> FitsFirst(a.Message().timestamp))
    && (a.Announce? ==> 1 <= a.size < TWO_31)
    && (a.Write? ==> a.message.msgType != SET_CHUNK_SIZE_TYPE)
  }

  predicate ValidScript(s: Sender, script: seq<Action>)
    decreases |script|
  {
    script != [] ==> Writable(s, script[0]) && ValidScript(s.After(script[0]), script[1..])
  }

  function Bytes(s: Sender, script: seq<Action>): seq<byte>
    requires ValidScript(s, script)
    decreases |script|
  {
    if script == [] then []
    else
      var out := WriteMessage(s.contexts, s.size, script[0].Message()).result;
      (if out.Ok? then out.value else []) + Bytes(s.After(script[0]), script[1..])
  }

  function MessageBytes(s: Sender, m: RawMessage): seq<byte> {
    if s.size == 0 || WriteMessage(s.contexts, s.size, m).result.Err? then []
    else WriteMessage(s.contexts, s.size, m).result.value
  }

  /** The sender after a whole script. */
  function AfterScript(s: Sender, script: seq<Action>): Sender
    requires ValidScript(s, script)
    decreases |script|
  {
    if script == [] then s else AfterScript(s.After(script[0]), script[1..])
  }

  lemma {:induction false} MessagesAppend(script: seq<Action>, a: Action)
    ensures Messages(script + [a]) == Messages(script) + [a.Message()]
  {
    if script == [] {
      assert [a][1..] == [];
    } else {
      MessagesAppend(script[1..], a);
      assert (script + [a])[1..] == script[1..] + [a];
    }
  }

  lemma {:induction false} ScriptAppend(s: Sender, script: seq<Action>, a: Action)
    requires ValidScript(s, script + [a])
    ensures ValidScript(s, script) && Writable(AfterScript(s, script), a)
    ensures AfterScript(s, script + [a]) == AfterScript(s, script).After(a)
    ensures Bytes(s, script + [a]) == Bytes(s, script) + MessageBytes(AfterScript(s, script), a.Message())
    decreases |script|
  {
    if script == [] {
      OneAction(s, a);
      assert [] + [a] == [a];
    } else {
      var s', later := s.After(script[0]), script[1..];
      assert (script + [a])[1..] == later + [a];
      ScriptAppend(s', later, a);
      assert ValidScript(s, script);
      assert AfterScript(s, script) == AfterScript(s', later);
      UnfoldBytes(s, script);
      UnfoldBytes(s, script + [a]);
      Grouping(MessageBytes(s, script[0].Message()), Bytes(s', later), MessageBytes(AfterScript(s', later), a.Message()));
    }
  }

  lemma Grouping(a: seq<byte>, b: seq<byte>, c: seq<byte>)
    ensures a + (b + c) == a + b + c
  {
  }

  lemma UnfoldBytes(s: Sender, script: seq<Action>)
    requires ValidScript(s, script) && script != []
    ensures Bytes(s, script) == MessageBytes(s, script[0].Message()) + Bytes(s.After(script[0]), script[1..])
  {
  }

  lemma OneAction(s: Sender, a: Action)
    requires ValidScript(s, [a])
    ensures Writable(s, a) && AfterScript(s, [a]) == s.After(a)
    ensures Bytes(s, [a]) == MessageBytes(s, a.Message())
  {
    assert [a][1..] == [];
    UnfoldBytes(s, [a]);
  }

  // ---- Receiver ----

  datatype Receiver = Receiver(contexts: ReaderContexts, size: nat, buffer: seq<byte>, broken: bool)

  /** The size the reader uses after a message: SetChunkSize takes the low 31 bits of its payload. */
  function SizeAfter(size: nat, m: RawMessage): nat {
    if m.msgType == SET_CHUNK_SIZE_TYPE && |m.payload| >= 4 then ReadBe32(m.payload) % TWO_31 else size
  }

  function Prepend(early: seq<RawMessage>, received: (seq<RawMessage>, Receiver)): (seq<RawMessage>, Receiver) {
    (early + received.0, received.1)
  }

  /** Reads as many messages as the data holds, applying chunk sizes as they come. */
  function ReceiveAll(contexts: ReaderContexts, size: nat, data: seq<byte>): (seq<RawMessage>, Receiver)
    decreases |data|
  {
    match ReadMessage(contexts, size, data)
    case OutOfData(contexts', rest) => ([], Receiver(contexts', size, rest, false))
    case Broken => ([], Receiver(contexts, size, [], true))
    case Message(contexts', rest, m) =>
      Prepend([m], ReceiveAll(contexts', SizeAfter(size, m), rest))
  }

  function Receive(r: Receiver, piece: seq<byte>): (seq<RawMessage>, Receiver) {
    if r.broken then ([], r) else ReceiveAll(r.contexts, r.size, r.buffer + piece)
  }

  function ReceivePieces(r: Receiver, pieces: seq<seq<byte>>): (seq<RawMessage>, Receiver)
    decreases |pieces|
  {
    if pieces == [] then ([], r)
    else
      var first := Receive(r, pieces[0]);
      Prepend(first.0, ReceivePieces(first.1, pieces[1..]))
  }

  function Concat(pieces: seq<seq<byte>>): seq<byte> {
    if pieces == [] then [] else pieces[0] + Concat(pieces[1..])
  }

  // ---- The receiver hears the sender, whatever the timestamps ----

  /** Timestamps by chunk stream; 0 where nothing was heard yet. */
  type Times = map<nat, nat>

  function At(heard: Times, csId: nat): nat {
    if csId in heard then heard[csId] else 0
  }

  ghost predicate AreTimesOf(heard: Times, contexts: ReaderContexts) {
    forall k: nat :: At(heard, k) == ReaderLookup(contexts, k).timestamp
  }

  /** A message as it is heard: only its timestamp may be another. */
  function Heard(s: Sender, heard: Times, m: RawMessage): RawMessage {
    m.(timestamp := TimestampRead(Lookup(s.contexts, m.csId), At(heard, m.csId), m, s.size))
  }

  function HeardAll(s: Sender, heard: Times, script: seq<Action>): seq<RawMessage>
    requires ValidScript(s, script)
    decreases |script|
  {
    if script == [] then []
    else
      var m := Heard(s, heard, script[0].Message());
      [m] + HeardAll(s.After(script[0]), heard[m.csId := m.timestamp], script[1..])
  }

  /** The receiver has taken everything, uses the sender's chunk size, and goes on in sync. */
  ghost predicate CaughtUp(r: Receiver, s: Sender) {
    !r.broken && r.buffer == [] && r.size == s.size && AllInSync(s.contexts, r.contexts)
  }

  /**
   Every script is heard message by message, in any order of timestamps: nothing but
   timestamps can differ, and framing, payloads and chunk sizes stay in step.
   */
  lemma {:induction false} EveryScriptIsHeard(s: Sender, contexts: ReaderContexts, heard: Times, script: seq<Action>)
    requires AllInSync(s.contexts, contexts) && AreTimesOf(heard, contexts) && ValidScript(s, script)
    ensures ReceiveAll(contexts, s.size, Bytes(s, script)).0 == HeardAll(s, heard, script)
    ensures CaughtUp(ReceiveAll(contexts, s.size, Bytes(s, script)).1, AfterScript(s, script))
    decreases |script|
  {
    if script == [] {
      assert ReadBase([]) == NotEnoughData;
    } else {
      var a, tail := script[0], Bytes(s.After(script[0]), script[1..]);
      var m, contexts' := FirstIsHeard(s, contexts, heard, a, tail);
      EveryScriptIsHeard(s.After(a), contexts', heard[m.csId := m.timestamp], script[1..]);
    }
  }

  lemma FirstIsHeard(s: Sender, contexts: ReaderContexts, heard: Times, a: Action, tail: seq<byte>)
    returns (m: RawMessage, contexts': ReaderContexts)
    requires AllInSync(s.contexts, contexts) && AreTimesOf(heard, contexts) && Writable(s, a)
    ensures m == Heard(s, heard, a.Message())
    ensures AllInSync(s.After(a).contexts, contexts') && AreTimesOf(heard[m.csId := m.timestamp], contexts')
    ensures ReceiveAll(contexts, s.size, MessageBytes(s, a.Message()) + tail)
         == Prepend([m], ReceiveAll(contexts', s.After(a).size, tail))
  {
    MessageRoundTrip(s.contexts, contexts, s.size, a.Message(), tail);
    var got := ReadMessage(contexts, s.size, MessageBytes(s, a.Message()) + tail);
    m, contexts' := got.message, got.contexts;
    TimesFollow(heard, contexts, contexts', m.csId, m.timestamp);
    SizesAgree(s, a);
    assert SizeAfter(s.size, m) == SizeAfter(s.size, a.Message());
  }

  lemma TimesFollow(heard: Times, contexts: ReaderContexts, contexts': ReaderContexts, csId: nat, t: nat)
    requires AreTimesOf(heard, contexts)
    requires ReaderLookup(contexts', csId).timestamp == t
    requires forall k :: k != csId ==> ReaderLookup(contexts', k) == ReaderLookup(contexts, k)
    ensures AreTimesOf(heard[csId := t], contexts')
  {
    forall k: nat ensures At(heard[csId := t], k) == ReaderLookup(contexts', k).timestamp {
      assert At(heard, k) == ReaderLookup(contexts, k).timestamp;
    }
  }

  lemma SizesAgree(s: Sender, a: Action)
    requires Writable(s, a)
    ensures SizeAfter(s.size, a.Message()) == s.After(a).size
  {
    if a.Announce? {
      AnnouncedSize(a.size);
    }
  }

  lemma AnnouncedSize(size: nat)
    requires size < TWO_31
    ensures ReadBe32(Be32(size)) % TWO_31 == size
  {
    RoundTrip32(size, []);
    assert Be32(size) + [] == Be32(size);
  }

  // ---- How late messages are heard ----

  /** Writing a message leaves its message stream and timestamp in the context of its chunk stream. */
  lemma HeaderNamesStream(contexts: WriterContexts, size: nat, m: RawMessage)
    requires 1 <= size
    ensures var c := WriteMessage(contexts, size, m).contexts;
            && m.csId in c && c[m.csId].header.streamId == m.streamId && c[m.csId].timestamp == m.timestamp
            && forall k :: k != m.csId ==> Lookup(c, k) == Lookup(contexts, k)
  {
  }

  /** The contexts of chunk stream k before and after an action. */
  lemma ContextAfter(s: Sender, a: Action, k: nat)
    requires 1 <= s.size
    ensures var c, m := s.After(a).contexts, a.Message();
            if k == m.csId then k in c && c[k].header.streamId == m.streamId && c[k].timestamp == m.timestamp
            else Lookup(c, k) == Lookup(s.contexts, k)
  {
  }

  /** By how much a message is heard late: steps back on a message stream add up, a change of message stream in one chunk clears them. */
  function LateAfter(w: Option<WriterContext>, late: nat, m: RawMessage, size: nat): nat {
    if w == None then 0
    else if w.value.header.streamId == m.streamId then late + SaturatingSub(w.value.timestamp, m.timestamp)
    else if |m.payload| <= size then 0
    else late + w.value.timestamp
  }

  function LateAll(s: Sender, late: Times, script: seq<Action>): seq<nat>
    requires ValidScript(s, script)
    decreases |script|
  {
    if script == [] then []
    else
      var m := script[0].Message();
      var l := LateAfter(Lookup(s.contexts, m.csId), At(late, m.csId), m, s.size);
      [l] + LateAll(s.After(script[0]), late[m.csId := l], script[1..])
  }

  /** On each chunk stream the last timestamp was heard late by so much. */
  ghost predicate HeardLateBy(contexts: WriterContexts, heard: Times, late: Times) {
    forall k :: k in contexts ==> At(heard, k) == WrappingAdd(contexts[k].timestamp, At(late, k))
  }

  ghost predicate AreLateBy(heard: seq<RawMessage>, msgs: seq<RawMessage>, late: seq<nat>) {
    && |heard| == |msgs| == |late|
    && forall i :: 0 <= i < |msgs| ==> heard[i] == msgs[i].(timestamp := WrappingAdd(msgs[i].timestamp, late[i]))
  }

  lemma AreLateByCons(x: RawMessage, heard: seq<RawMessage>, m: RawMessage, msgs: seq<RawMessage>, l: nat, late: seq<nat>)
    requires AreLateBy(heard, msgs, late) && x == m.(timestamp := WrappingAdd(m.timestamp, l))
    ensures AreLateBy([x] + heard, [m] + msgs, [l] + late)
  {
  }

  /** Every message of every script is heard late by exactly the time LateAll gives it, modulo 2^32. */
  lemma {:induction false} HeardLate(s: Sender, heard: Times, late: Times, script: seq<Action>)
    requires ValidScript(s, script) && HeardLateBy(s.contexts, heard, late)
    ensures AreLateBy(HeardAll(s, heard, script), Messages(script), LateAll(s, late, script))
    decreases |script|
  {
    if script != [] {
      var m := script[0].Message();
      var w := Lookup(s.contexts, m.csId);
      var l := LateAfter(w, At(late, m.csId), m, s.size);
      OneHeardLate(w, At(heard, m.csId), At(late, m.csId), m, s.size);
      LatenessGoesOn(s, heard, late, script[0], Heard(s, heard, m).timestamp, l);
      var s', heard', late' := s.After(script[0]), heard[m.csId := Heard(s, heard, m).timestamp], late[m.csId := l];
      HeardLate(s', heard', late', script[1..]);
      AreLateByCons(Heard(s, heard, m), HeardAll(s', heard', script[1..]), m, Messages(script[1..]),
                    l, LateAll(s', late', script[1..]));
    }
  }

  lemma LatenessGoesOn(s: Sender, heard: Times, late: Times, a: Action, t: nat, l: nat)
    requires 1 <= s.size && HeardLateBy(s.contexts, heard, late) && t == WrappingAdd(a.Message().timestamp, l)
    ensures HeardLateBy(s.After(a).contexts, heard[a.Message().csId := t], late[a.Message().csId := l])
  {
    forall k | k in s.After(a).contexts
      ensures At(heard[a.Message().csId := t], k)
           == WrappingAdd(s.After(a).contexts[k].timestamp, At(late[a.Message().csId := l], k))
    {
      ContextAfter(s, a, k);
    }
  }

  lemma OneHeardLate(w: Option<WriterContext>, heard: nat, late: nat, m: RawMessage, size: nat)
    requires m.timestamp < TWO_32
    requires w.Some? ==> heard == WrappingAdd(w.value.timestamp, late)
    ensures TimestampRead(w, heard, m, size) == WrappingAdd(m.timestamp, LateAfter(w, late, m, size))
  {
    if w.Some? {
      WrappingAssociates(w.value.timestamp, late, SaturatingSub(m.timestamp, w.value.timestamp));
      WrappingAssociates(w.value.timestamp, late, m.timestamp);
    }
  }

  lemma WrappingAssociates(a: nat, b: nat, c: nat)
    ensures WrappingAdd(WrappingAdd(a, b), c) == (a + b + c) % TWO_32
  {
    var q, r := (a + b) / TWO_32, (a + b) % TWO_32;
    var k, low := (r + c) / TWO_32, (r + c) % TWO_32;
    assert a + b + c == (q + k) * TWO_32 + low;
  }

  // ---- When everything is heard as it was sent ----

  /** Every message keeps its timestamp on its way. */
  predicate ScriptKept(s: Sender, heard: Times, script: seq<Action>)
    requires ValidScript(s, script)
    decreases |script|
  {
    script != [] ==>
      var m := script[0].Message();
      && TimestampKept(Lookup(s.contexts, m.csId), At(heard, m.csId), m, s.size)
      && ScriptKept(s.After(script[0]), heard[m.csId := m.timestamp], script[1..])
  }

  ghost predicate TimesFit(contexts: WriterContexts, heard: Times) {
    && (forall k :: k in contexts ==> contexts[k].timestamp < TWO_32)
    && (forall k: nat :: At(heard, k) < TWO_32)
  }

  lemma {:induction false} HeardAsSentIff(s: Sender, heard: Times, script: seq<Action>)
    requires ValidScript(s, script) && TimesFit(s.contexts, heard)
    ensures HeardAll(s, heard, script) == Messages(script) <==> ScriptKept(s, heard, script)
    decreases |script|
  {
    if script != [] {
      var m := script[0].Message();
      var s', heard' := s.After(script[0]), heard[m.csId := m.timestamp];
      TimestampKeptIff(Lookup(s.contexts, m.csId), At(heard, m.csId), m, s.size);
      if Heard(s, heard, m) == m {
        TimesFitGoOn(s, heard, script[0]);
        HeardAsSentIff(s', heard', script[1..]);
        HeadThenTail(m, HeardAll(s', heard', script[1..]), Messages(script[1..]));
      } else {
        assert HeardAll(s, heard, script)[0] != Messages(script)[0];
      }
    }
  }

  lemma TimesFitGoOn(s: Sender, heard: Times, a: Action)
    requires 1 <= s.size && TimesFit(s.contexts, heard) && a.Message().timestamp < TWO_32
    ensures TimesFit(s.After(a).contexts, heard[a.Message().csId := a.Message().timestamp])
  {
    forall k | k in s.After(a).contexts ensures s.After(a).contexts[k].timestamp < TWO_32 {
      ContextAfter(s, a, k);
    }
    var heard' := heard[a.Message().csId := a.Message().timestamp];
    forall k: nat ensures At(heard', k) < TWO_32 {
      assert At(heard, k) < TWO_32;
    }
  }

  /**
   The receiver, using only the announced chunk sizes, reads back exactly the
   messages written, if and only if every message keeps its timestamp.
   */
  lemma ConversationRoundTrip(s: Sender, contexts: ReaderContexts, heard: Times, script: seq<Action>)
    requires AllInSync(s.contexts, contexts) && AreTimesOf(heard, contexts) && ValidScript(s, script)
    ensures ReceiveAll(contexts, s.size, Bytes(s, script)).0 == Messages(script) <==> ScriptKept(s, heard, script)
  {
    EveryScriptIsHeard(s, contexts, heard, script);
    InSyncFits(s.contexts, contexts, heard);
    HeardAsSentIff(s, heard, script);
  }

  lemma InSyncFits(w: WriterContexts, r: ReaderContexts, heard: Times)
    requires AllInSync(w, r) && AreTimesOf(heard, r)
    ensures TimesFit(w, heard)
  {
    forall k: nat ensures (k in w ==> w[k].timestamp < TWO_32) && At(heard, k) < TWO_32 {
      assert StreamInSync(w, r, k);
    }
  }

  lemma HeadThenTail<T>(x: T, a: seq<T>, b: seq<T>)
    ensures [x] + a == [x] + b <==> a == b
  {
    assert ([x] + a)[1..] == a && ([x] + b)[1..] == b;
  }

  /** So far everything was heard with the timestamp it was sent with. */
  ghost predicate OnTime(contexts: WriterContexts, heard: Times) {
    forall k :: k in contexts ==> At(heard, k) == contexts[k].timestamp
  }

  lemma OnTimeGoesOn(s: Sender, heard: Times, a: Action)
    requires 1 <= s.size && OnTime(s.contexts, heard)
    ensures OnTime(s.After(a).contexts, heard[a.Message().csId := a.Message().timestamp])
  {
    var m := a.Message();
    forall k | k in s.After(a).contexts
      ensures At(heard[m.csId := m.timestamp], k) == s.After(a).contexts[k].timestamp
    {
      ContextAfter(s, a, k);
    }
  }

  /** On every chunk stream timestamps do not go back, and only messages stamped 0 precede a change of message stream. */
  ghost predicate InOrder(msgs: seq<RawMessage>) {
    forall i, j :: 0 <= i < j < |msgs| && msgs[i].csId == msgs[j].csId ==> MayFollow(msgs[i].streamId, msgs[i].timestamp, msgs[j])
  }

  predicate MayFollow(streamId: nat, timestamp: nat, m: RawMessage) {
    timestamp <= m.timestamp && (streamId == m.streamId || timestamp == 0)
  }

  /** What a client that stamps its messages in order sends is heard as sent. */
  lemma {:induction false} InOrderIsKept(s: Sender, heard: Times, script: seq<Action>)
    requires ValidScript(s, script) && OnTime(s.contexts, heard)
    requires InOrder(Messages(script)) && MayFollowAll(s.contexts, Messages(script))
    ensures ScriptKept(s, heard, script)
    decreases |script|
  {
    if script != [] {
      var m, later := script[0].Message(), Messages(script[1..]);
      var msgs := Messages(script);
      assert msgs == [m] + later;
      HeaderNamesStream(s.contexts, s.size, m);
      OrderGoesOn(s.contexts, WriteMessage(s.contexts, s.size, m).contexts, m, later);
      OnTimeGoesOn(s, heard, script[0]);
      InOrderIsKept(s.After(script[0]), heard[m.csId := m.timestamp], script[1..]);
    }
  }

  /** Each message may follow the last one of its chunk stream. */
  ghost predicate MayFollowAll(contexts: WriterContexts, msgs: seq<RawMessage>) {
    forall j :: 0 <= j < |msgs| && msgs[j].csId in contexts ==>
      MayFollow(contexts[msgs[j].csId].header.streamId, contexts[msgs[j].csId].timestamp, msgs[j])
  }

  lemma OrderGoesOn(contexts: WriterContexts, contexts': WriterContexts, m: RawMessage, later: seq<RawMessage>)
    requires InOrder([m] + later) && MayFollowAll(contexts, [m] + later)
    requires m.csId in contexts' && contexts'[m.csId].header.streamId == m.streamId && contexts'[m.csId].timestamp == m.timestamp
    requires forall k :: k != m.csId ==> Lookup(contexts', k) == Lookup(contexts, k)
    ensures m.csId in contexts ==> MayFollow(contexts[m.csId].header.streamId, contexts[m.csId].timestamp, m)
    ensures InOrder(later) && MayFollowAll(contexts', later)
  {
    var all := [m] + later;
    assert all[0] == m && forall j :: 0 <= j < |later| ==> later[j] == all[j + 1];
    forall j | 0 <= j < |later| && later[j].csId in contexts'
      ensures MayFollow(contexts'[later[j].csId].header.streamId, contexts'[later[j].csId].timestamp, later[j])
    {
      assert later[j] == all[j + 1];
      assert later[j].csId != m.csId ==> Lookup(contexts', later[j].csId) == Lookup(contexts, later[j].csId);
    }
  }

  /** The next message on m's chunk stream stays on its message stream and is stamped earlier. */
  predicate FollowedByEarlier(m: RawMessage, later: seq<RawMessage>) {
    later != [] &&
      if later[0].csId == m.csId then later[0].streamId == m.streamId && later[0].timestamp < m.timestamp
      else FollowedByEarlier(m, later[1..])
  }

  /** Somewhere a message is stamped earlier than the one before it on its streams. */
  predicate GoesBack(msgs: seq<RawMessage>) {
    msgs != [] && (FollowedByEarlier(msgs[0], msgs[1..]) || GoesBack(msgs[1..]))
  }

  /** The first step of a script that is kept, and what is left of it. */
  lemma KeptStep(s: Sender, heard: Times, script: seq<Action>) returns (s': Sender, heard': Times)
    requires script != [] && ValidScript(s, script) && OnTime(s.contexts, heard) && ScriptKept(s, heard, script)
    ensures ValidScript(s', script[1..]) && OnTime(s'.contexts, heard') && ScriptKept(s', heard', script[1..])
    ensures Messages(script) == [script[0].Message()] + Messages(script[1..])
    ensures !BehindContext(s.contexts, script[0].Message())
    ensures s'.contexts == s.After(script[0]).contexts
  {
    var m := script[0].Message();
    s', heard' := s.After(script[0]), heard[m.csId := m.timestamp];
    OnTimeGoesOn(s, heard, script[0]);
    assert TimestampKept(Lookup(s.contexts, m.csId), At(heard, m.csId), m, s.size);
  }

  /** The message goes back behind the last one written on its streams. */
  predicate BehindContext(contexts: WriterContexts, m: RawMessage) {
    m.csId in contexts && contexts[m.csId].header.streamId == m.streamId && m.timestamp < contexts[m.csId].timestamp
  }

  /** A script that is kept goes back nowhere. */
  lemma {:induction false} KeptNeverGoesBack(s: Sender, heard: Times, script: seq<Action>)
    requires ValidScript(s, script) && OnTime(s.contexts, heard) && ScriptKept(s, heard, script)
    ensures !GoesBack(Messages(script))
    decreases |script|
  {
    if script != [] {
      var s', heard' := KeptStep(s, heard, script);
      var m := script[0].Message();
      ContextAfter(s, script[0], m.csId);
      NextIsNotEarlier(s', heard', script[1..], m);
      KeptNeverGoesBack(s', heard', script[1..]);
    }
  }

  lemma {:induction false} NextIsNotEarlier(s: Sender, heard: Times, script: seq<Action>, m: RawMessage)
    requires ValidScript(s, script) && OnTime(s.contexts, heard) && ScriptKept(s, heard, script)
    requires m.csId in s.contexts
    requires s.contexts[m.csId].header.streamId == m.streamId && s.contexts[m.csId].timestamp == m.timestamp
    ensures !FollowedByEarlier(m, Messages(script))
    decreases |script|
  {
    if script != [] {
      var s', heard' := KeptStep(s, heard, script);
      if script[0].Message().csId != m.csId {
        ContextAfter(s, script[0], m.csId);
        NextIsNotEarlier(s', heard', script[1..], m);
      }
    }
  }

  // ---- From the start of a connection ----

  const START := Sender(map[], DEFAULT_CHUNK_SIZE)

  lemma EmptyContextsInSync()
    ensures AllInSync(START.contexts, map[]) && AreTimesOf(map[], map[])
    ensures OnTime(START.contexts, map[]) && HeardLateBy(START.contexts, map[], map[])
  {
  }

  /** A message stamped earlier than the one before it on its streams, as a repeated codec configuration is, is misread. */
  lemma EarlierTimestampIsMisread(script: seq<Action>)
    requires ValidScript(START, script) && GoesBack(Messages(script))
    ensures ReceiveAll(map[], DEFAULT_CHUNK_SIZE, Bytes(START, script)).0 != Messages(script)
  {
    EmptyContextsInSync();
    ConversationRoundTrip(START, map[], map[], script);
    if ScriptKept(START, map[], script) {
      KeptNeverGoesBack(START, map[], script);
    }
  }
}
